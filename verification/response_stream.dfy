/** The data response handlers driven by one sequential stream of inbound
    HAL calls. Each call is dispatched to its handler; the stream's effects
    are the concatenation of the handlers' effects. Over any stream, each
    pending serial is finalised at most once, and a serial that was never
    pending is never finalised. */
module ResponseStream {
  import opened Common
  import opened PendingTable
  import opened DataResponse

  /** The void response handlers, all of which delegate to `responseVoid`. */
  datatype VoidCommand =
    | CancelHandover | DeactivateDataCall | ReleasePduSessionId | SetDataAllowed
    | SetDataProfile | SetDataThrottling | SetInitialAttachApn | StartHandover

  /** One inbound call on `IRadioDataResponse`. */
  datatype Incoming =
    | Acknowledgement(ackSerial: int)
    | VoidCommandResponse(command: VoidCommand, info: ResponseInfo)
    | PduSessionIdResponse(info: ResponseInfo, id: int)
    | DataCallListResponse(info: ResponseInfo, list: seq<HalSetupDataCallResult>)
    | SlicingConfigResponse(info: ResponseInfo, config: HalSlicingConfig)
    | SetupDataCallResponseIn(info: ResponseInfo, result: HalSetupDataCallResult)
    | KeepaliveStarted(info: ResponseInfo, payload: Option<HalKeepaliveStatus>)
    | KeepaliveStopped(info: ResponseInfo)

  /** Handlers whose finalisation runs on every path, including a fault:
      all except the three whose converter runs outside any `try/finally`. */
  predicate FinalisesOnEveryPath(m: Incoming)
  {
    !(m.DataCallListResponse? || m.SlicingConfigResponse? || m.SetupDataCallResponseIn?)
  }

  /** Number of `processResponseDone` calls for `serial` in a trace. */
  function DoneCount(t: seq<Effect>, serial: int): (n: nat)
    ensures n <= |t|
  {
    if |t| == 0 then 0
    else (if t[0].Done? && t[0].serial == serial then 1 else 0) + DoneCount(t[1..], serial)
  }

  function Present(table: Table, k: int): nat
  {
    if k in table then 1 else 0
  }

  /** Every finalisation in `t` retired a serial of `before` that is absent
      from `after`; no serial is finalised twice. */
  ghost predicate FinalisesAtMostOnce(before: Table, after: Table, t: seq<Effect>)
  {
    forall k :: DoneCount(t, k) + Present(after, k) <= Present(before, k)
  }

  /** ... and every serial that left the table was finalised. */
  ghost predicate FinalisesExactlyOnce(before: Table, after: Table, t: seq<Effect>)
  {
    forall k :: DoneCount(t, k) + Present(after, k) == Present(before, k)
  }

  lemma {:induction false} DoneCountAppend(a: seq<Effect>, b: seq<Effect>, k: int)
    ensures DoneCount(a + b, k) == DoneCount(a, k) + DoneCount(b, k)
  {
    if |a| == 0 {
      assert a + b == b;
    } else {
      assert (a + b)[1..] == a[1..] + b;
      DoneCountAppend(a[1..], b, k);
    }
  }

  lemma {:induction false} DoneCountOfDones(t: seq<Effect>, k: int)
    ensures DoneCount(t, k) == DoneCount(Dones(t), k)
  {
    if |t| > 0 {
      DoneCountOfDones(t[1..], k);
      var head := if t[0].Done? then [t[0]] else [];
      assert Dones(t) == head + Dones(t[1..]);
      DoneCountAppend(head, Dones(t[1..]), k);
    }
  }

  /** A completed handler finalised exactly the serial it retired. */
  lemma CompletedCounts(table: Table, info: ResponseInfo, s: Step, v: Value, delivered: bool)
    requires info.serial in table
    requires CompletedWith(table, info, s, v, delivered)
    ensures FinalisesExactlyOnce(table, s.table, s.effects)
    ensures |Deliveries(s.effects)| <= |Dones(s.effects)|
  {
    forall k ensures DoneCount(s.effects, k) + Present(s.table, k) == Present(table, k) {
      DoneCountOfDones(s.effects, k);
      assert DoneCount([Done(info.serial, info.error, v)], k) == if k == info.serial then 1 else 0;
    }
  }

  /** Dispatch one inbound call to its handler. An acknowledgement leaves
      the table alone; a response retires its serial, and a response whose
      serial is not pending does nothing else. */
  function Handle(tr: Translators, table: Table, m: Incoming): (s: Step)
    ensures m.Acknowledgement? ==> s.table == table && s.effects == [Ack(m.ackSerial)]
    ensures !m.Acknowledgement? ==> s.table == table - {m.info.serial}
    ensures !m.Acknowledgement? && m.info.serial !in table ==> s == Step(table, [], false)
  {
    match m
    case Acknowledgement(serial) => AcknowledgeRequest(table, serial)
    case VoidCommandResponse(_, info) => ResponseVoid(table, info)
    case PduSessionIdResponse(info, id) => AllocatePduSessionIdResponse(table, info, id)
    case DataCallListResponse(info, list) => GetDataCallListResponse(tr, table, info, list)
    case SlicingConfigResponse(info, config) => GetSlicingConfigResponse(tr, table, info, config)
    case SetupDataCallResponseIn(info, result) => SetupDataCallResponse(tr, table, info, result)
    case KeepaliveStarted(info, payload) => StartKeepaliveResponse(tr, table, info, payload)
    case KeepaliveStopped(info) => StopKeepaliveResponse(table, info)
  }

  /** One inbound call finalises at most the serial it retires, and exactly
      that serial unless a handler without `try/finally` faulted. */
  lemma HandleFinalisesOnce(tr: Translators, table: Table, m: Incoming)
    ensures var s := Handle(tr, table, m);
      && FinalisesAtMostOnce(table, s.table, s.effects)
      && (!s.faulted || FinalisesOnEveryPath(m) ==> FinalisesExactlyOnce(table, s.table, s.effects))
  {
    var s := Handle(tr, table, m);
    if m.Acknowledgement? {
      assert DoneCount(s.effects, m.ackSerial) == 0;
    } else if m.info.serial !in table {
    } else {
      var info := m.info;
      match m
      case VoidCommandResponse(_, _) =>
        CompletedCounts(table, info, s, Null, info.error == NoError);
      case PduSessionIdResponse(_, id) =>
        CompletedCounts(table, info, s, PduSessionId(id), info.error == NoError);
      case DataCallListResponse(_, list) =>
        if tr.dataCallList(list).Converted? {
          CompletedCounts(table, info, s, DataCallList(tr.dataCallList(list).value), info.error == NoError);
        }
      case SlicingConfigResponse(_, config) =>
        if tr.slicingConfig(config).Converted? {
          CompletedCounts(table, info, s, Slicing(tr.slicingConfig(config).value), info.error == NoError);
        }
      case SetupDataCallResponseIn(_, result) =>
        if tr.dataCallResult(result).Converted? {
          CompletedCounts(table, info, s, DataCall(tr.dataCallResult(result).value), info.error == NoError);
        }
      case KeepaliveStarted(_, payload) =>
        if s.faulted {
          CompletedCounts(table, info, s, Null, false);
        } else if info.error == NoError {
          CompletedCounts(table, info, s, Keepalive(KeepaliveOnSuccess(tr, payload.value)), true);
        } else {
          CompletedCounts(table, info, s, Keepalive(KeepaliveOnError(info.error)), false);
        }
      case KeepaliveStopped(_) =>
        CompletedCounts(table, info, s, Null, info.error == NoError);
    }
  }

  /** One inbound call delivers at most once, and never without finalising. */
  lemma HandleDeliversOnce(tr: Translators, table: Table, m: Incoming)
    ensures var s := Handle(tr, table, m);
      && |Deliveries(s.effects)| <= 1
      && |Deliveries(s.effects)| <= |Dones(s.effects)|
  {
  }

  /** Feed a stream of inbound calls to the handlers in order. */
  function Run(tr: Translators, table: Table, ms: seq<Incoming>): Step
    decreases |ms|
  {
    if |ms| == 0 then Step(table, [], false)
    else
      var h := Handle(tr, table, ms[0]);
      var r := Run(tr, h.table, ms[1..]);
      Step(r.table, h.effects + r.effects, h.faulted || r.faulted)
  }

  /** Over any stream: the table only shrinks, no serial is finalised twice,
      an unknown serial is never finalised, nothing is delivered without a
      finalisation, and when no handler without `try/finally` faulted, every
      retired serial was finalised exactly once. */
  lemma {:induction false} RunFinalisesAtMostOnce(tr: Translators, table: Table, ms: seq<Incoming>)
    ensures Run(tr, table, ms).table.Keys <= table.Keys
    ensures FinalisesAtMostOnce(table, Run(tr, table, ms).table, Run(tr, table, ms).effects)
    ensures !Run(tr, table, ms).faulted ==>
      FinalisesExactlyOnce(table, Run(tr, table, ms).table, Run(tr, table, ms).effects)
    ensures (forall i :: 0 <= i < |ms| ==> FinalisesOnEveryPath(ms[i])) ==>
      FinalisesExactlyOnce(table, Run(tr, table, ms).table, Run(tr, table, ms).effects)
    ensures |Deliveries(Run(tr, table, ms).effects)| <= |Dones(Run(tr, table, ms).effects)|
    decreases |ms|
  {
    if |ms| > 0 {
      var h := Handle(tr, table, ms[0]);
      var r := Run(tr, h.table, ms[1..]);
      HandleFinalisesOnce(tr, table, ms[0]);
      HandleDeliversOnce(tr, table, ms[0]);
      RunFinalisesAtMostOnce(tr, h.table, ms[1..]);
      var all := (forall i :: 0 <= i < |ms| ==> FinalisesOnEveryPath(ms[i]));
      if all {
        assert forall i :: 0 <= i < |ms[1..]| ==> FinalisesOnEveryPath(ms[1..][i]);
      }
      forall k
        ensures DoneCount(h.effects + r.effects, k) + Present(r.table, k) <= Present(table, k)
        ensures !(h.faulted || r.faulted) || all ==>
          DoneCount(h.effects + r.effects, k) + Present(r.table, k) == Present(table, k)
      {
        DoneCountAppend(h.effects, r.effects, k);
      }
      FiltersOfAppend(h.effects, r.effects);
    }
  }

  /** No pending serial is finalised more than once, and a serial that was
      never pending is never finalised. */
  lemma NoDoubleFinalisation(tr: Translators, table: Table, ms: seq<Incoming>, k: int)
    ensures DoneCount(Run(tr, table, ms).effects, k) <= 1
    ensures k !in table ==> DoneCount(Run(tr, table, ms).effects, k) == 0
  {
    RunFinalisesAtMostOnce(tr, table, ms);
  }

  /** A second response for an already answered serial changes nothing. */
  lemma DuplicateResponseInert(tr: Translators, table: Table, m: Incoming, m': Incoming)
    requires !m.Acknowledgement? && !m'.Acknowledgement? && m.info.serial == m'.info.serial
    ensures var s := Handle(tr, table, m).table; Handle(tr, s, m') == Step(s, [], false)
  {
  }

  /** An acknowledgement is not terminal: the response that follows it is
      handled exactly as if the acknowledgement had not been seen. */
  lemma AckThenResponse(tr: Translators, table: Table, m: Incoming)
    requires !m.Acknowledgement?
    ensures var r := Run(tr, table, [Acknowledgement(m.info.serial), m]);
      var h := Handle(tr, table, m);
      r.effects == [Ack(m.info.serial)] + h.effects && r.table == h.table
  {
    var ms := [Acknowledgement(m.info.serial), m];
    var a := Handle(tr, table, ms[0]);
    assert a.table == table && a.effects == [Ack(m.info.serial)];
    assert ms[1..] == [m];
    var h := Handle(tr, table, m);
    assert Run(tr, table, [m]) == Step(h.table, h.effects + [], h.faulted || false);
    assert h.effects + [] == h.effects;
  }

  /** Serial 7 allocates a PDU session id 42 for target T: T receives 42,
      processResponseDone sees 42, and 7 is retired. */
  lemma AllocateScenario(tr: Translators)
    ensures var s := Handle(tr, map[7 := RilRequest(Some(Target(1)))],
                            PduSessionIdResponse(ResponseInfo(7, NoError), 42));
      s.effects == [Deliver(Target(1), PduSessionId(42)), Done(7, NoError, PduSessionId(42))]
      && 7 !in s.table
  {
  }

  /** Serial 9 starts a keepalive the modem does not support: the
      unsupported status goes to processResponseDone only, not to the caller. */
  lemma KeepaliveUnsupportedScenario(tr: Translators, payload: Option<HalKeepaliveStatus>)
    ensures Handle(tr, map[9 := RilRequest(Some(Target(1)))],
                   KeepaliveStarted(ResponseInfo(9, RequestNotSupported), payload)).effects
         == [Done(9, RequestNotSupported, Keepalive(KeepaliveFailed(ErrorUnsupported)))]
  {
  }

  /** Serial 3 stops a keepalive and the modem fails: only finalisation. */
  lemma StopKeepaliveFailureScenario(tr: Translators, code: int)
    ensures Handle(tr, map[3 := RilRequest(Some(Target(1)))],
                   KeepaliveStopped(ResponseInfo(3, OtherError(code)))).effects
         == [Done(3, OtherError(code), Null)]
  {
  }
}
