/** Reading the body of an incoming SMS from its PDUs, for the visual
    voicemail filter: `getFullMessage` (through the platform's PDU parser
    and a UTF-8 decoder, both left uninterpreted) and `parseAsciiPduMessage`
    (each PDU byte read as one US-ASCII character). */
module VvmPdu {
  import opened Common

  /** What `SmsMessage` exposes to the filter: its decoded body and its raw
      user data, either of which may be null. */
  datatype SmsMessage = SmsMessage(messageBody: Option<string>, userData: Option<seq<byte>>)

  /** `SmsMessage.createFromPdu` (null for an unrecognised PDU) and the UTF-8
      `CharsetDecoder` (`None` where it throws `CharacterCodingException`). */
  datatype SmsDecoding = SmsDecoding(
    createFromPdu: (seq<byte>, string) -> Option<SmsMessage>,
    decodeUtf8: seq<byte> -> Option<string>)

  /** What one PDU contributes to the message body. */
  datatype PduReading = Unrecognised | Undecodable | Body(text: Option<string>)

  /** One iteration of the `getFullMessage` loop: the message body, or else
      the user data decoded as UTF-8. */
  function ReadPdu(d: SmsDecoding, pdu: seq<byte>, format: string): (r: PduReading)
    ensures r == Unrecognised <==> d.createFromPdu(pdu, format).None?
    ensures r == Undecodable <==>
      && d.createFromPdu(pdu, format).Some?
      && d.createFromPdu(pdu, format).value.messageBody.None?
      && d.createFromPdu(pdu, format).value.userData.Some?
      && d.decodeUtf8(d.createFromPdu(pdu, format).value.userData.value).None?
    // A non-null body is used as it is.
    ensures d.createFromPdu(pdu, format).Some? && d.createFromPdu(pdu, format).value.messageBody.Some? ==>
      r == Body(d.createFromPdu(pdu, format).value.messageBody)
    // A null body with user data falls back to the user data read as UTF-8.
    ensures (d.createFromPdu(pdu, format).Some?
             && d.createFromPdu(pdu, format).value.messageBody.None?
             && d.createFromPdu(pdu, format).value.userData.Some?
             && d.decodeUtf8(d.createFromPdu(pdu, format).value.userData.value).Some?) ==>
      r == Body(d.decodeUtf8(d.createFromPdu(pdu, format).value.userData.value))
    // With neither a body nor user data the PDU contributes nothing.
    ensures (d.createFromPdu(pdu, format).Some?
             && d.createFromPdu(pdu, format).value.messageBody.None?
             && d.createFromPdu(pdu, format).value.userData.None?) ==>
      r == Body(None)
  {
    match d.createFromPdu(pdu, format)
    case None => Unrecognised
    case Some(msg) =>
      if msg.messageBody.None? && msg.userData.Some? then
        match d.decodeUtf8(msg.userData.value)
        case None => Undecodable
        case Some(text) => Body(Some(text))
      else Body(msg.messageBody)
  }

  /** The text a readable PDU appends: its body, or nothing when null. */
  function Appended(r: PduReading): string
  {
    if r.Body? && r.text.Some? then r.text.value else ""
  }

  /** The `StringBuilder` loop of `getFullMessage`, from `acc` onwards. */
  function FullMessageFrom(d: SmsDecoding, pdus: seq<seq<byte>>, format: string, acc: string): Option<string>
    decreases |pdus|
  {
    if |pdus| == 0 then Some(acc)
    else
      var r := ReadPdu(d, pdus[0], format);
      if !r.Body? then None else FullMessageFrom(d, pdus[1..], format, acc + Appended(r))
  }

  /** `getFullMessage`. */
  function GetFullMessage(d: SmsDecoding, pdus: seq<seq<byte>>, format: string): Option<string>
  {
    FullMessageFrom(d, pdus, format, "")
  }

  /** The text every PDU contributes, in PDU order. */
  function Contributions(d: SmsDecoding, pdus: seq<seq<byte>>, format: string): (c: seq<string>)
    ensures |c| == |pdus|
  {
    seq(|pdus|, i requires 0 <= i < |pdus| => Appended(ReadPdu(d, pdus[i], format)))
  }

  lemma {:induction false} FullMessageFromSpec(d: SmsDecoding, pdus: seq<seq<byte>>, format: string, acc: string)
    ensures FullMessageFrom(d, pdus, format, acc).None? <==>
      exists i :: 0 <= i < |pdus| && !ReadPdu(d, pdus[i], format).Body?
    ensures FullMessageFrom(d, pdus, format, acc).Some? ==>
      FullMessageFrom(d, pdus, format, acc).value == acc + Flatten(Contributions(d, pdus, format))
    decreases |pdus|
  {
    if |pdus| > 0 {
      var r := ReadPdu(d, pdus[0], format);
      FullMessageFromSpec(d, pdus[1..], format, acc + Appended(r));
      var c := Contributions(d, pdus, format);
      assert c == [Appended(r)] + Contributions(d, pdus[1..], format);
      if exists i :: 0 <= i < |pdus[1..]| && !ReadPdu(d, pdus[1..][i], format).Body? {
        var i :| 0 <= i < |pdus[1..]| && !ReadPdu(d, pdus[1..][i], format).Body?;
        assert pdus[1..][i] == pdus[i + 1];
      }
      if exists i :: 0 <= i < |pdus| && !ReadPdu(d, pdus[i], format).Body? {
        var i :| 0 <= i < |pdus| && !ReadPdu(d, pdus[i], format).Body?;
        if i > 0 {
          assert pdus[1..][i - 1] == pdus[i];
        }
      }
    }
  }

  /** `getFullMessage` is null exactly when some PDU is unrecognised or has
      a null body with user data that is not valid UTF-8; otherwise it is
      the in-order concatenation of the PDUs' bodies, null bodies adding
      nothing. */
  lemma GetFullMessageSpec(d: SmsDecoding, pdus: seq<seq<byte>>, format: string)
    ensures GetFullMessage(d, pdus, format).None? <==>
      exists i :: 0 <= i < |pdus| && ReadPdu(d, pdus[i], format) in {Unrecognised, Undecodable}
    ensures GetFullMessage(d, pdus, format).Some? ==>
      GetFullMessage(d, pdus, format).value == Flatten(Contributions(d, pdus, format))
  {
    FullMessageFromSpec(d, pdus, format, "");
  }

  /** `new String(bytes, US_ASCII)` for one byte: bytes outside ASCII decode
      to the replacement character U+FFFD. */
  function AsciiChar(b: byte): char
  {
    if b < 128 then (b as int) as char else '\U{FFFD}'
  }

  function AsciiString(bytes: seq<byte>): (s: string)
    ensures |s| == |bytes|
    ensures forall i :: 0 <= i < |bytes| ==> s[i] == AsciiChar(bytes[i])
  {
    seq(|bytes|, i requires 0 <= i < |bytes| => AsciiChar(bytes[i]))
  }

  /** The `StringBuilder` loop of `parseAsciiPduMessage`, from `acc` onwards. */
  function AppendAscii(acc: string, pdus: seq<seq<byte>>): string
    decreases |pdus|
  {
    if |pdus| == 0 then acc else AppendAscii(acc + AsciiString(pdus[0]), pdus[1..])
  }

  lemma {:induction false} AppendAsciiDecodesAll(acc: string, pdus: seq<seq<byte>>)
    ensures AppendAscii(acc, pdus) == acc + AsciiString(Flatten(pdus))
    decreases |pdus|
  {
    if |pdus| > 0 {
      AppendAsciiDecodesAll(acc + AsciiString(pdus[0]), pdus[1..]);
      assert Flatten(pdus) == pdus[0] + Flatten(pdus[1..]);
      assert AsciiString(Flatten(pdus)) == AsciiString(pdus[0]) + AsciiString(Flatten(pdus[1..]));
    }
  }

  /** `parseAsciiPduMessage`: the concatenated PDU bytes read as ASCII,
      one character per byte. */
  function ParseAsciiPduMessage(pdus: seq<seq<byte>>): (s: string)
    ensures s == AsciiString(Flatten(pdus))
    ensures |s| == TotalLength(pdus)
  {
    AppendAsciiDecodesAll("", pdus);
    AppendAscii("", pdus)
  }

  /** Reading ASCII back as bytes: the inverse on 7-bit data. */
  function AsciiBytes(s: string): seq<byte>
    requires forall i :: 0 <= i < |s| ==> s[i] as int < 128
  {
    seq(|s|, i requires 0 <= i < |s| => (s[i] as int) as byte)
  }

  /** For PDUs holding only 7-bit bytes, `parseAsciiPduMessage` loses
      nothing: encoding its result gives back the concatenated bytes. */
  lemma AsciiRoundTrip(pdus: seq<seq<byte>>)
    requires forall i, j :: 0 <= i < |pdus| && 0 <= j < |pdus[i]| ==> pdus[i][j] < 128
    ensures forall i :: 0 <= i < |ParseAsciiPduMessage(pdus)| ==> ParseAsciiPduMessage(pdus)[i] as int < 128
    ensures AsciiBytes(ParseAsciiPduMessage(pdus)) == Flatten(pdus)
  {
    var all := Flatten(pdus);
    FlattenSevenBit(pdus);
    var s := ParseAsciiPduMessage(pdus);
    assert forall i :: 0 <= i < |s| ==> s[i] == AsciiChar(all[i]);
  }

  lemma {:induction false} FlattenSevenBit(pdus: seq<seq<byte>>)
    requires forall i, j :: 0 <= i < |pdus| && 0 <= j < |pdus[i]| ==> pdus[i][j] < 128
    ensures forall k :: 0 <= k < |Flatten(pdus)| ==> Flatten(pdus)[k] < 128
    decreases |pdus|
  {
    if |pdus| > 0 {
      FlattenSevenBit(pdus[1..]);
      assert Flatten(pdus) == pdus[0] + Flatten(pdus[1..]);
      forall k | 0 <= k < |Flatten(pdus)| ensures Flatten(pdus)[k] < 128 {
        if k >= |pdus[0]| {
          assert Flatten(pdus)[k] == Flatten(pdus[1..])[k - |pdus[0]|];
        }
      }
    }
  }
}
