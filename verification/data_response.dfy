/** The data-call response handlers of the radio HAL (`DataResponse`).
    Each handler is a pure function from the pending table and one response
    to the new table and the trace of effects it caused: deliveries to the
    caller's result `Message`, the single `processResponseDone`
    finalisation, and forwarded acknowledgements. */
module DataResponse {
  import opened Common
  import opened PendingTable

  /** `RadioError` codes the handlers distinguish; every other code is
      `OtherError`. */
  datatype RadioError = NoError | RequestNotSupported | NoResources | OtherError(code: int)

  /** `RadioResponseInfo`: the serial of the answered request and its error. */
  datatype ResponseInfo = ResponseInfo(serial: int, error: RadioError)

  // HAL payloads and the framework values the converters produce; this
  // layer never looks inside them.
  type HalSetupDataCallResult(==, !new)
  type HalSlicingConfig(==, !new)
  type DataCallResponse(==, !new)
  type SlicingConfig(==, !new)

  /** The HAL keepalive status payload. */
  datatype HalKeepaliveStatus = HalKeepaliveStatus(sessionHandle: int, code: int)

  datatype KeepaliveError = ErrorUnsupported | ErrorNoResources | ErrorUnknown

  /** `KeepaliveStatus`, by the constructor that built it: error-only, or a
      session handle with a converted status code. */
  datatype KeepaliveStatus =
    | KeepaliveFailed(error: KeepaliveError)
    | KeepaliveSession(sessionHandle: int, statusCode: int)

  /** The object handed to the caller and to `processResponseDone`. */
  datatype Value =
    | Null
    | PduSessionId(id: int)
    | DataCallList(calls: seq<DataCallResponse>)
    | Slicing(config: SlicingConfig)
    | DataCall(call: DataCallResponse)
    | Keepalive(status: KeepaliveStatus)

  /** A foreign conversion either yields a value or throws. */
  datatype Conversion<T> = Converted(value: T) | Threw

  /** The `RILUtils` converters, left uninterpreted. */
  datatype Translators = Translators(
    dataCallList: seq<HalSetupDataCallResult> -> Conversion<seq<DataCallResponse>>,
    slicingConfig: HalSlicingConfig -> Conversion<SlicingConfig>,
    dataCallResult: HalSetupDataCallResult -> Conversion<DataCallResponse>,
    keepaliveStatusCode: int -> int)

  datatype Effect =
    | Deliver(target: Target, value: Value)             // AsyncResult.forMessage + sendToTarget
    | Done(serial: int, error: RadioError, value: Value) // RIL.processResponseDone
    | Ack(serial: int)                                   // RIL.processRequestAck

  /** The outcome of handling one inbound call: the new table, the effects
      in order, and whether an exception escaped the handler. */
  datatype Step = Step(table: Table, effects: seq<Effect>, faulted: bool)

  // ---------------------------------------------------------------------
  // Views of an effect trace

  function Dones(t: seq<Effect>): (r: seq<Effect>)
    ensures |r| <= |t|
    ensures forall e :: e in r <==> e in t && e.Done?
  {
    if |t| == 0 then [] else (if t[0].Done? then [t[0]] else []) + Dones(t[1..])
  }

  function Deliveries(t: seq<Effect>): (r: seq<Effect>)
    ensures |r| <= |t|
    ensures forall e :: e in r <==> e in t && e.Deliver?
  {
    if |t| == 0 then [] else (if t[0].Deliver? then [t[0]] else []) + Deliveries(t[1..])
  }

  function Acks(t: seq<Effect>): (r: seq<Effect>)
    ensures |r| <= |t|
    ensures forall e :: e in r <==> e in t && e.Ack?
  {
    if |t| == 0 then [] else (if t[0].Ack? then [t[0]] else []) + Acks(t[1..])
  }

  /** A response whose serial is not pending changes nothing. */
  ghost predicate Inert(table: Table, s: Step)
  {
    s == Step(table, [], false)
  }

  /** The completion discipline for a matched request finalised with `v`:
      the entry is retired, `processResponseDone` runs exactly once and
      last, and the caller receives `v` exactly when the error is `NONE`
      and its result `Message` is non-null (`delivered` says whether that
      branch ran), never anything else. */
  ghost predicate CompletedWith(table: Table, info: ResponseInfo, s: Step, v: Value, delivered: bool)
    requires info.serial in table
  {
    var msg := table[info.serial].result;
    && s.table == table - {info.serial}
    && Dones(s.effects) == [Done(info.serial, info.error, v)]
    && s.effects[|s.effects| - 1] == Done(info.serial, info.error, v)
    && Acks(s.effects) == []
    && (Deliveries(s.effects) == if delivered && msg.Some? then [Deliver(msg.value, v)] else [])
    && |s.effects| == |Dones(s.effects)| + |Deliveries(s.effects)|
  }

  /** A converter threw before anything was sent: the entry is already
      retired, yet neither delivery nor finalisation happened. */
  ghost predicate Leaked(table: Table, info: ResponseInfo, s: Step)
  {
    s == Step(table - {info.serial}, [], true)
  }

  // ---------------------------------------------------------------------
  // Handlers

  /** `sendMessageResponse`: deliver to a non-null result `Message`. */
  function SendMessageResponse(msg: Option<Target>, v: Value): (t: seq<Effect>)
    ensures |t| <= 1
    ensures t != [] <==> msg.Some?
    ensures forall e :: e in t ==> e == Deliver(msg.value, v)
  {
    if msg.Some? then [Deliver(msg.value, v)] else []
  }

  /** The tail every non-keepalive handler shares once it has a value:
      deliver only on `NONE`, then always finalise. */
  function Complete(rest: Table, req: RilRequest, info: ResponseInfo, v: Value): Step
  {
    var delivery := if info.error == NoError then SendMessageResponse(req.result, v) else [];
    Step(rest, delivery + [Done(info.serial, info.error, v)], false)
  }

  lemma CompleteDiscipline(table: Table, info: ResponseInfo, v: Value)
    requires info.serial in table
    ensures CompletedWith(table, info, Complete(table - {info.serial}, table[info.serial], info, v), v, info.error == NoError)
  {
    var s := Complete(table - {info.serial}, table[info.serial], info, v);
    var d := if info.error == NoError then SendMessageResponse(table[info.serial].result, v) else [];
    var e := Done(info.serial, info.error, v);
    assert s.effects == d + [e];
    FiltersOfAppend(d, [e]);
    assert Dones([e]) == [e];
    assert Deliveries([e]) == [];
    assert Acks([e]) == [];
    if d != [] {
      assert Dones(d) == [] && Acks(d) == [] && Deliveries(d) == d;
    } else {
      assert Dones(d) == [] && Acks(d) == [] && Deliveries(d) == [];
    }
  }

  lemma {:induction false} DonesAppend(a: seq<Effect>, b: seq<Effect>)
    ensures Dones(a + b) == Dones(a) + Dones(b)
  {
    if |a| == 0 {
      assert a + b == b;
    } else {
      assert (a + b)[1..] == a[1..] + b;
      DonesAppend(a[1..], b);
    }
  }

  lemma {:induction false} DeliveriesAppend(a: seq<Effect>, b: seq<Effect>)
    ensures Deliveries(a + b) == Deliveries(a) + Deliveries(b)
  {
    if |a| == 0 {
      assert a + b == b;
    } else {
      assert (a + b)[1..] == a[1..] + b;
      DeliveriesAppend(a[1..], b);
    }
  }

  lemma {:induction false} AcksAppend(a: seq<Effect>, b: seq<Effect>)
    ensures Acks(a + b) == Acks(a) + Acks(b)
  {
    if |a| == 0 {
      assert a + b == b;
    } else {
      assert (a + b)[1..] == a[1..] + b;
      AcksAppend(a[1..], b);
    }
  }

  lemma FiltersOfAppend(a: seq<Effect>, b: seq<Effect>)
    ensures Dones(a + b) == Dones(a) + Dones(b)
    ensures Deliveries(a + b) == Deliveries(a) + Deliveries(b)
    ensures Acks(a + b) == Acks(a) + Acks(b)
  {
    DonesAppend(a, b);
    DeliveriesAppend(a, b);
    AcksAppend(a, b);
  }

  /** `responseVoid`, which every void response handler delegates to. */
  function ResponseVoid(table: Table, info: ResponseInfo): (s: Step)
    ensures info.serial !in table ==> Inert(table, s)
    ensures !s.faulted
    ensures info.serial in table ==> CompletedWith(table, info, s, Null, info.error == NoError)
  {
    var l := ProcessResponse(table, info.serial);
    if l.found.None? then Step(table, [], false)
    else
      CompleteDiscipline(table, info, Null);
      Complete(l.rest, l.found.value, info, Null)
  }

  /** `acknowledgeRequest`: only forwards the serial. */
  function AcknowledgeRequest(table: Table, serial: int): (s: Step)
    ensures s.table == table && !s.faulted
    ensures Acks(s.effects) == [Ack(serial)] && |s.effects| == 1
    ensures Dones(s.effects) == [] && Deliveries(s.effects) == []
  {
    Step(table, [Ack(serial)], false)
  }

  /** `allocatePduSessionIdResponse`: the id is both delivered (on `NONE`)
      and finalised. */
  function AllocatePduSessionIdResponse(table: Table, info: ResponseInfo, id: int): (s: Step)
    ensures info.serial !in table ==> Inert(table, s)
    ensures !s.faulted
    ensures info.serial in table ==> CompletedWith(table, info, s, PduSessionId(id), info.error == NoError)
  {
    var l := ProcessResponse(table, info.serial);
    if l.found.None? then Step(table, [], false)
    else
      CompleteDiscipline(table, info, PduSessionId(id));
      Complete(l.rest, l.found.value, info, PduSessionId(id))
  }

  /** `getDataCallListResponse`: the list is converted even on error and
      handed to `processResponseDone`; a throwing converter escapes with
      the entry retired but unfinalised. */
  function GetDataCallListResponse(tr: Translators, table: Table, info: ResponseInfo,
                                   list: seq<HalSetupDataCallResult>): (s: Step)
    ensures info.serial !in table ==> Inert(table, s)
    ensures s.faulted <==> info.serial in table && tr.dataCallList(list).Threw?
    ensures info.serial in table && tr.dataCallList(list).Converted? ==>
      CompletedWith(table, info, s, DataCallList(tr.dataCallList(list).value), info.error == NoError)
    ensures info.serial in table && tr.dataCallList(list).Threw? ==> Leaked(table, info, s)
  {
    var l := ProcessResponse(table, info.serial);
    if l.found.None? then Step(table, [], false)
    else match tr.dataCallList(list)
      case Threw => Step(l.rest, [], true)
      case Converted(calls) =>
        CompleteDiscipline(table, info, DataCallList(calls));
        Complete(l.rest, l.found.value, info, DataCallList(calls))
  }

  /** `getSlicingConfigResponse`: as for the data-call list. */
  function GetSlicingConfigResponse(tr: Translators, table: Table, info: ResponseInfo,
                                    config: HalSlicingConfig): (s: Step)
    ensures info.serial !in table ==> Inert(table, s)
    ensures s.faulted <==> info.serial in table && tr.slicingConfig(config).Threw?
    ensures info.serial in table && tr.slicingConfig(config).Converted? ==>
      CompletedWith(table, info, s, Slicing(tr.slicingConfig(config).value), info.error == NoError)
    ensures info.serial in table && tr.slicingConfig(config).Threw? ==> Leaked(table, info, s)
  {
    var l := ProcessResponse(table, info.serial);
    if l.found.None? then Step(table, [], false)
    else match tr.slicingConfig(config)
      case Threw => Step(l.rest, [], true)
      case Converted(c) =>
        CompleteDiscipline(table, info, Slicing(c));
        Complete(l.rest, l.found.value, info, Slicing(c))
  }

  /** `setupDataCallResponse`: as for the data-call list. */
  function SetupDataCallResponse(tr: Translators, table: Table, info: ResponseInfo,
                                 result: HalSetupDataCallResult): (s: Step)
    ensures info.serial !in table ==> Inert(table, s)
    ensures s.faulted <==> info.serial in table && tr.dataCallResult(result).Threw?
    ensures info.serial in table && tr.dataCallResult(result).Converted? ==>
      CompletedWith(table, info, s, DataCall(tr.dataCallResult(result).value), info.error == NoError)
    ensures info.serial in table && tr.dataCallResult(result).Threw? ==> Leaked(table, info, s)
  {
    var l := ProcessResponse(table, info.serial);
    if l.found.None? then Step(table, [], false)
    else match tr.dataCallResult(result)
      case Threw => Step(l.rest, [], true)
      case Converted(c) =>
        CompleteDiscipline(table, info, DataCall(c));
        Complete(l.rest, l.found.value, info, DataCall(c))
  }

  /** The status a successful keepalive start reports: a negative converted
      code means the modem's code is unknown, reported as unsupported. */
  function KeepaliveOnSuccess(tr: Translators, p: HalKeepaliveStatus): (k: KeepaliveStatus)
    ensures k.KeepaliveFailed? <==> tr.keepaliveStatusCode(p.code) < 0
    ensures k.KeepaliveFailed? ==> k.error == ErrorUnsupported
    ensures k.KeepaliveSession? ==> k.sessionHandle == p.sessionHandle && k.statusCode == tr.keepaliveStatusCode(p.code) >= 0
  {
    var converted := tr.keepaliveStatusCode(p.code);
    if converted < 0 then KeepaliveFailed(ErrorUnsupported)
    else KeepaliveSession(p.sessionHandle, converted)
  }

  /** The status a failed keepalive start reports. */
  function KeepaliveOnError(error: RadioError): (k: KeepaliveStatus)
    requires error != NoError
    ensures k.KeepaliveFailed?
    ensures k.error == ErrorUnsupported <==> error == RequestNotSupported
    ensures k.error == ErrorNoResources <==> error == NoResources
    ensures k.error == ErrorUnknown <==> error.OtherError?
  {
    match error
    case RequestNotSupported => KeepaliveFailed(ErrorUnsupported)
    case NoResources => KeepaliveFailed(ErrorNoResources)
    case OtherError(_) => KeepaliveFailed(ErrorUnknown)
  }

  /** `startKeepaliveResponse`. The switch runs inside `try/finally`: a null
      HAL payload faults in the `NONE` branch before anything is delivered,
      and `processResponseDone` still runs, with `ret` still null. On
      `NONE` the status is delivered to the caller even when it encodes an
      error; any other code's status goes only to `processResponseDone`. */
  function StartKeepaliveResponse(tr: Translators, table: Table, info: ResponseInfo,
                                  payload: Option<HalKeepaliveStatus>): (s: Step)
    ensures info.serial !in table ==> Inert(table, s)
    ensures s.faulted <==> info.serial in table && info.error == NoError && payload.None?
    ensures info.serial in table && s.faulted ==> CompletedWith(table, info, s, Null, false)
    ensures info.serial in table && info.error == NoError && payload.Some? ==>
      CompletedWith(table, info, s, Keepalive(KeepaliveOnSuccess(tr, payload.value)), true)
    ensures info.serial in table && info.error != NoError ==>
      CompletedWith(table, info, s, Keepalive(KeepaliveOnError(info.error)), false)
  {
    var l := ProcessResponse(table, info.serial);
    if l.found.None? then Step(table, [], false)
    else
      var rr := l.found.value;
      if info.error == NoError then
        match payload
        case None =>
          // `keepaliveStatus.code` throws; the finally block finalises with null.
          var done := [Done(info.serial, info.error, Null)];
          assert Dones(done) == done && Deliveries(done) == [] && Acks(done) == [];
          Step(l.rest, done, true)
        case Some(p) =>
          var ret := Keepalive(KeepaliveOnSuccess(tr, p));
          CompleteDiscipline(table, info, ret);
          Complete(l.rest, rr, info, ret)
      else
        var ret := Keepalive(KeepaliveOnError(info.error));
        CompleteDiscipline(table, info, ret);
        Complete(l.rest, rr, info, ret)
  }

  /** `stopKeepaliveResponse`: no translation; null is delivered on `NONE`
      and always finalised. */
  function StopKeepaliveResponse(table: Table, info: ResponseInfo): (s: Step)
    ensures info.serial !in table ==> Inert(table, s)
    ensures !s.faulted
    ensures info.serial in table ==> CompletedWith(table, info, s, Null, info.error == NoError)
  {
    var l := ProcessResponse(table, info.serial);
    if l.found.None? then Step(table, [], false)
    else
      CompleteDiscipline(table, info, Null);
      Complete(l.rest, l.found.value, info, Null)
  }
}
