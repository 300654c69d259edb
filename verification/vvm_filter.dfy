/** The decision cascade of `VisualVoicemailSmsFilter.filter`: decide
    whether an incoming SMS is a visual voicemail SMS (and so should be
    dropped), broadcasting what was recognised to the telephony service.
    Platform services, the structured parsers and regex matching are
    uninterpreted functions of a `Platform` record; the carrier pattern
    table is explicit state. */
module VvmFilter {
  import opened Common
  import opened VvmPatterns
  import opened VvmPdu

  /** `VisualVoicemailSmsFilterSettings`, as far as the filter reads it. */
  datatype FilterSettings = FilterSettings(clientPrefix: string)

  /** The parsed fields of a message; the filter only passes them on. */
  type Fields(==, !new)

  /** `VisualVoicemailSmsParser.WrappedMessageData`. */
  datatype WrappedMessageData = WrappedMessageData(prefix: string, fields: Fields)

  datatype ComponentName = ComponentName(package: string, className: string)

  datatype PhoneAccountHandle = PhoneAccountHandle(component: ComponentName, id: string)

  const TelephonyServicePackage: string := "com.android.phone"

  const PstnConnectionServiceComponent: ComponentName :=
    ComponentName("com.android.phone", "com.android.services.telephony.TelephonyConnectionService")

  /** The `VisualVoicemailSms` a broadcast carries. */
  datatype VisualVoicemailSms = VisualVoicemailSms(
    prefix: Option<string>, fields: Option<Fields>, messageBody: Option<string>,
    account: PhoneAccountHandle)

  /** A `VOICEMAIL_SMS_RECEIVED` broadcast, addressed to one package. */
  datatype Broadcast = Broadcast(package: string, sms: VisualVoicemailSms)

  /** The services `filter` consults. */
  datatype Platform = Platform(
    activeFilterSettings: int -> Option<FilterSettings>, // TelephonyManager, per subId
    isValidSubscriptionId: int -> bool,                  // SubscriptionManager
    phoneId: int -> Option<int>,                         // None: INVALID_PHONE_INDEX
    fullIccSerialNumber: int -> string,                  // PhoneFactory.getPhone(id)
    simOperator: int -> string,                          // mccMnc, per subId
    regexConfig: seq<string>,                            // config_vvmSmsFilterRegexes
    compiles: string -> bool,                            // Pattern.compile does not throw
    matches: (Pattern, string) -> bool,                  // pattern.matcher(body).matches()
    sms: SmsDecoding,
    parse: (string, string) -> Option<WrappedMessageData>,
    parseAlternativeFormat: string -> Option<WrappedMessageData>)

  /** How `filter` ended: a return value, or an exception escaping it. */
  datatype Outcome = Returned(drop: bool) | Raised

  datatype FilterResult = FilterResult(patterns: Option<PatternMap>, outcome: Outcome, broadcasts: seq<Broadcast>)

  /** `phoneAccountHandleFromSubId`. */
  function PhoneAccountHandleFromSubId(p: Platform, subId: int): (h: Option<PhoneAccountHandle>)
    ensures h.Some? <==> p.isValidSubscriptionId(subId) && p.phoneId(subId).Some?
    ensures h.Some? ==> h.value.component == PstnConnectionServiceComponent
    ensures h.Some? ==> h.value.id == p.fullIccSerialNumber(p.phoneId(subId).value)
  {
    if !p.isValidSubscriptionId(subId) then None
    else match p.phoneId(subId)
      case None => None
      case Some(id) => Some(PhoneAccountHandle(PstnConnectionServiceComponent, p.fullIccSerialNumber(id)))
  }

  /** `sendVvmSmsBroadcast`. */
  function VvmSmsBroadcast(account: PhoneAccountHandle, data: Option<WrappedMessageData>, body: Option<string>): (b: Broadcast)
    ensures b.package == TelephonyServicePackage && b.sms.account == account
    ensures b.sms.prefix.Some? <==> data.Some?
    ensures b.sms.fields.Some? <==> data.Some?
    ensures data.Some? ==> b.sms.prefix.value == data.value.prefix && b.sms.fields == Some(data.value.fields)
    ensures b.sms.messageBody == body
  {
    var prefix := if data.Some? then Some(data.value.prefix) else None;
    var fields := if data.Some? then Some(data.value.fields) else None;
    Broadcast(TelephonyServicePackage, VisualVoicemailSms(prefix, fields, body, account))
  }

  /** The first of `patterns` that matches the whole of `body`. */
  function FirstMatch(matches: (Pattern, string) -> bool, patterns: seq<Pattern>, body: string): (r: Option<nat>)
    ensures r.None? <==> forall i :: 0 <= i < |patterns| ==> !matches(patterns[i], body)
    ensures r.Some? ==> r.value < |patterns| && matches(patterns[r.value], body)
    ensures r.Some? ==> forall i :: 0 <= i < r.value ==> !matches(patterns[i], body)
  {
    if |patterns| == 0 then None
    else if matches(patterns[0], body) then Some(0)
    else match FirstMatch(matches, patterns[1..], body)
      case None => None
      case Some(i) => Some(i + 1)
  }

  /** The settings exist and the subscription maps to a phone account. */
  ghost predicate Enabled(p: Platform, subId: int)
  {
    p.activeFilterSettings(subId).Some? && PhoneAccountHandleFromSubId(p, subId).Some?
  }

  /** The structured parse of a readable body with the client's prefix. */
  ghost function ClientParse(p: Platform, subId: int, body: string): Option<WrappedMessageData>
    requires p.activeFilterSettings(subId).Some?
  {
    p.parse(p.activeFilterSettings(subId).value.clientPrefix, body)
  }

  /** `filter`, given the current pattern table. The destination port is
      not consulted. */
  function Filter(p: Platform, patterns: Option<PatternMap>, pdus: seq<seq<byte>>, format: string,
                  destPort: int, subId: int): (r: FilterResult)
    // No settings, or no phone account: nothing happens.
    ensures !Enabled(p, subId) ==> r == FilterResult(patterns, Returned(false), [])
    // An unparsable body is never dropped; the ASCII reading is broadcast
    // only if it parses in the alternative format.
    ensures (Enabled(p, subId) && GetFullMessage(p.sms, pdus, format).None?) ==>
      var alt := p.parseAlternativeFormat(ParseAsciiPduMessage(pdus));
      && r.patterns == patterns && r.outcome == Returned(false)
      && r.broadcasts == (if alt.Some? then [VvmSmsBroadcast(PhoneAccountHandleFromSubId(p, subId).value, alt, None)] else [])
    // A body in the client's format is dropped and its data broadcast,
    // without consulting the carrier patterns.
    ensures (Enabled(p, subId) && GetFullMessage(p.sms, pdus, format).Some?
             && ClientParse(p, subId, GetFullMessage(p.sms, pdus, format).value).Some?) ==>
      && r.patterns == patterns && r.outcome == Returned(true)
      && r.broadcasts == [VvmSmsBroadcast(PhoneAccountHandleFromSubId(p, subId).value,
                                          ClientParse(p, subId, GetFullMessage(p.sms, pdus, format).value), None)]
    // Otherwise the carrier patterns decide: the raw body is dropped and
    // broadcast once if a pattern for the SIM's mccMnc matches it.
    ensures (Enabled(p, subId) && GetFullMessage(p.sms, pdus, format).Some?
             && ClientParse(p, subId, GetFullMessage(p.sms, pdus, format).value).None?) ==>
      var built := BuildPatternsMap(patterns, p.regexConfig, p.compiles);
      var list := Lookup(built.patterns.value, p.simOperator(subId));
      var body := GetFullMessage(p.sms, pdus, format).value;
      && r.patterns == built.patterns
      && (built.threw ==> r.outcome == Raised && r.broadcasts == [])
      && ((!built.threw && forall i :: 0 <= i < |list| ==> !p.matches(list[i], body)) ==>
            r.outcome == Returned(false) && r.broadcasts == [])
      && ((!built.threw && exists i :: 0 <= i < |list| && p.matches(list[i], body)) ==>
            && r.outcome == Returned(true)
            && r.broadcasts == [VvmSmsBroadcast(PhoneAccountHandleFromSubId(p, subId).value, None, Some(body))])
  {
    match p.activeFilterSettings(subId)
    case None => FilterResult(patterns, Returned(false), [])
    case Some(settings) =>
      match PhoneAccountHandleFromSubId(p, subId)
      case None => FilterResult(patterns, Returned(false), [])
      case Some(account) =>
        match GetFullMessage(p.sms, pdus, format)
        case None =>
          var data := p.parseAlternativeFormat(ParseAsciiPduMessage(pdus));
          var sent := if data.Some? then [VvmSmsBroadcast(account, data, None)] else [];
          FilterResult(patterns, Returned(false), sent)
        case Some(body) =>
          var data := p.parse(settings.clientPrefix, body);
          if data.Some? then FilterResult(patterns, Returned(true), [VvmSmsBroadcast(account, data, None)])
          else
            var built := BuildPatternsMap(patterns, p.regexConfig, p.compiles);
            if built.threw then FilterResult(built.patterns, Raised, [])
            else
              var list := Lookup(built.patterns.value, p.simOperator(subId));
              if |list| == 0 then FilterResult(built.patterns, Returned(false), [])
              else match FirstMatch(p.matches, list, body)
                case None => FilterResult(built.patterns, Returned(false), [])
                case Some(_) =>
                  FilterResult(built.patterns, Returned(true), [VvmSmsBroadcast(account, None, Some(body))])
  }

  /** At most one broadcast per SMS; a dropped SMS was always broadcast,
      and always had a readable body. */
  lemma FilterBroadcastsOnce(p: Platform, patterns: Option<PatternMap>, pdus: seq<seq<byte>>, format: string,
                             destPort: int, subId: int)
    ensures var r := Filter(p, patterns, pdus, format, destPort, subId);
      && |r.broadcasts| <= 1
      && (r.outcome == Returned(true) ==> |r.broadcasts| == 1 && GetFullMessage(p.sms, pdus, format).Some?)
      && (r.outcome == Raised ==> r.broadcasts == [])
  {
  }

  /** The pattern table is built at most once: once present, `filter`
      never changes it, and a call that raised leaves a table behind, so no
      later call raises. */
  lemma FilterBuildsPatternsOnce(p: Platform, patterns: Option<PatternMap>, pdus: seq<seq<byte>>, format: string,
                                 destPort: int, subId: int, pdus': seq<seq<byte>>, format': string, subId': int)
    ensures var r := Filter(p, patterns, pdus, format, destPort, subId);
      && (patterns.Some? ==> r.patterns == patterns && r.outcome != Raised)
      && (r.patterns.None? ==> patterns.None?)
      && (r.outcome == Raised ==>
            && r.patterns.Some?
            && Filter(p, r.patterns, pdus', format', destPort, subId').outcome != Raised)
  {
  }

  /** A pattern-matched drop broadcasts the raw body, never parsed data. */
  lemma PatternDropCarriesRawBody(p: Platform, patterns: Option<PatternMap>, pdus: seq<seq<byte>>, format: string,
                                  destPort: int, subId: int)
    requires p.activeFilterSettings(subId).Some?
    requires GetFullMessage(p.sms, pdus, format).Some?
    requires p.parse(p.activeFilterSettings(subId).value.clientPrefix, GetFullMessage(p.sms, pdus, format).value).None?
    ensures var r := Filter(p, patterns, pdus, format, destPort, subId);
      r.outcome == Returned(true) ==>
        r.broadcasts[0].sms.prefix.None? && r.broadcasts[0].sms.messageBody == GetFullMessage(p.sms, pdus, format)
  {
  }
}
