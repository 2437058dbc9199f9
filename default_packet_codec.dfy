/**
 * Model of src/socket_io_packet_codec/default_packet_codec.rs: the Socket.IO text packet
 * grammar `<type digit>[<nsp>,][<ack id digits>][<json>]`.
 *
 * serde_json is not part of this model: its `to_string` is the parameter `show` and its
 * `from_str` the parameter `parse` (an `Err` carries the parser's message).
 */
module DefaultPacketCodec {
  import opened Wrappers
  import opened Decimal
  import opened CodecPacketType
  import opened SocketIoPacket
  import CodecNumberUtil

  /** `PacketCodecError`; `EncodeError` cannot arise when writing into a `String`. */
  datatype PacketCodecError = DecodeError(message: string)

  const EMPTY_DATA: string := "Data is empty"
  const UNKNOWN_TYPE: string := "Unknown packet type"
  const BINARY_UNSUPPORTED: string := "Binary not supported"
  const BAD_ID: string := "Unable to parse ID"

  /** The text the JSON serializer writes for an optional payload. */
  function PayloadText<V>(data: Option<V>, show: V -> string): string {
    match data
    case Some(v) => show(v)
    case None => ""
  }

  /** The decimal text written for an optional ack id. */
  function IdText(id: Option<U32>): string {
    match id
    case Some(n) => NatToDecimal(n)
    case None => ""
  }

  /** The namespace segment: nothing for the default namespace, else the namespace and a comma. */
  function NspText(nsp: string): string {
    if nsp != "/" then nsp + "," else ""
  }

  /** `encode`: type digit, namespace segment, ack id, payload, with no separators in between. */
  function Encode<V>(p: SocketIoPacket<V>, show: V -> string): (e: string)
    ensures |e| == 1 + |NspText(p.nsp)| + |IdText(p.id)| + |PayloadText(p.data, show)|
    ensures e[0] == TypeDigit(p.packetType)
  {
    [TypeDigit(p.packetType)] + NspText(p.nsp) + IdText(p.id) + PayloadText(p.data, show)
  }

  /**
   * The layout `encode` writes: the namespace and a comma right after the type digit unless the
   * namespace is "/", then the ack id as decimal digits, and the payload text at the end.
   */
  lemma EncodeLayout<V>(p: SocketIoPacket<V>, show: V -> string)
    ensures var e := Encode(p, show);
      p.nsp != "/" ==> e[1..1 + |p.nsp|] == p.nsp && e[1 + |p.nsp|] == ','
    ensures var e := Encode(p, show);
      p.nsp == "/" ==> |e| == 1 + |IdText(p.id)| + |PayloadText(p.data, show)|
    ensures var e, k := Encode(p, show), 1 + |NspText(p.nsp)|;
      p.id.Some? ==>
        var digits := e[k..k + |IdText(p.id)|];
        AllDigits(digits) && DecimalValue(digits) == p.id.value
    ensures var e := Encode(p, show);
      e[|e| - |PayloadText(p.data, show)|..] == PayloadText(p.data, show)
  {
    var e := Encode(p, show);
    var N, I, P := NspText(p.nsp), IdText(p.id), PayloadText(p.data, show);
    assert e == [TypeDigit(p.packetType)] + N + I + P;
    var k := 1 + |N|;
    assert e[k..k + |I|] == I;
    assert e[|e| - |P|..] == P;
    if p.id.Some? {
      DecimalRoundTrip(p.id.value);
    }
  }

  /** The first ',' at or after `i`, or the end of `s`. */
  function CommaFrom(s: string, i: nat): (j: nat)
    requires i <= |s|
    ensures i <= j <= |s|
    ensures j < |s| ==> s[j] == ','
    ensures forall k :: i <= k < j ==> s[k] != ','
    decreases |s| - i
  {
    if i == |s| || s[i] == ',' then i else CommaFrom(s, i + 1)
  }

  /** The first non-digit at or after `i`, or the end of `s`. */
  function DigitRunEnd(s: string, i: nat): (j: nat)
    requires i <= |s|
    ensures i <= j <= |s|
    ensures j < |s| ==> !IsDigit(s[j])
    ensures AllDigits(s[i..j])
    decreases |s| - i
  {
    if i == |s| || !IsDigit(s[i]) then i
    else
      var j := DigitRunEnd(s, i + 1);
      assert forall k :: 0 <= k < j - i ==> s[i..j][k] == if k == 0 then s[i] else s[i + 1..j][k - 1];
      j
  }

  /** Whether the namespace scan runs: the char after the type digit is '/'. */
  predicate HasNspSegment(s: string) {
    |s| > 1 && s[1] == '/'
  }

  /** Where the namespace scan leaves the cursor: on its terminating comma (or the end), else on the type digit. */
  function NspCursor(s: string): (c: nat)
    requires |s| > 0
    ensures c <= |s|
  {
    if HasNspSegment(s) then CommaFrom(s, 1) else 0
  }

  /** The namespace the scan produces. */
  function ScannedNsp(s: string): string
    requires |s| > 0
  {
    if HasNspSegment(s) then s[1..CommaFrom(s, 1)] else "/"
  }

  /** Position where the ack-id scan looks: right after the namespace segment. */
  function IdStart(s: string): nat
    requires |s| > 0
  {
    NspCursor(s) + 1
  }

  /** Whether an ack id is present: a digit right after the namespace segment. */
  predicate HasId(s: string)
    requires |s| > 0
  {
    IdStart(s) < |s| && IsDigit(s[IdStart(s)])
  }

  /** The remainder, from `from`, handed to the JSON parser; nothing left means no payload. */
  function DecodePayload<V>(s: string, from: nat, p: SocketIoPacket<V>, parse: string -> Result<V, string>)
    : Result<SocketIoPacket<V>, PacketCodecError>
  {
    if from < |s| then
      match parse(s[from..])
      case Ok(v) => Ok(p.(data := Some(v)))
      case Err(e) => Err(DecodeError(e))
    else Ok(p)
  }

  /** After the namespace scan: the ack id, then the payload. */
  function DecodeAfterNsp<V>(s: string, p: SocketIoPacket<V>, parse: string -> Result<V, string>)
    : Result<SocketIoPacket<V>, PacketCodecError>
    requires |s| > 0
  {
    if HasId(s) then
      var idEnd := DigitRunEnd(s, IdStart(s));
      match ParseU32(s[IdStart(s)..idEnd])
      case None => Err(DecodeError(BAD_ID))
      case Some(n) => DecodePayload(s, idEnd, p.(id := Some(n)), parse)
    else DecodePayload(s, IdStart(s), p, parse)
  }

  /** The decoding `decode` performs, stated on positions of the input instead of a cursor. */
  function DecodeSpec<V>(s: string, parse: string -> Result<V, string>): Result<SocketIoPacket<V>, PacketCodecError> {
    if |s| == 0 then Err(DecodeError(EMPTY_DATA))
    else
      match ConvertFromChar(s[0])
      case Err(_) => Err(DecodeError(UNKNOWN_TYPE))
      case Ok(t) =>
        if t == BinaryAck || t == BinaryEvent then Err(DecodeError(BINARY_UNSUPPORTED))
        else DecodeAfterNsp(s, SocketIoPacket(t, ScannedNsp(s), None, None), parse)
  }

  /**
   * The namespace loop of `decode`: starting with the cursor on the type digit, push every
   * char up to the next ',' (or the end) when the char after the type is '/', else use "/".
   * Returns the cursor where the scan stopped and the namespace.
   */
  method ScanNamespace(chars: string) returns (idx: nat, nsp: string)
    requires |chars| > 0
    ensures idx == NspCursor(chars) && nsp == ScannedNsp(chars)
  {
    idx := 0;
    nsp := "";
    if |chars| > idx + 1 && chars[idx + 1] == '/' {
      while true
        invariant 0 <= idx < CommaFrom(chars, 1)
        invariant nsp == chars[1..idx + 1]
        decreases |chars| - idx
      {
        idx := idx + 1;
        if idx >= |chars| {
          break;
        }
        var currentChar := chars[idx];
        if currentChar == ',' {
          break;
        }
        nsp := nsp + [currentChar];
      }
    } else {
      nsp := nsp + ['/'];
    }
  }

  /**
   * The ack-id loop of `decode`, entered with a digit at `nextIdx`: push that digit and every
   * digit after it; on the first non-digit step the cursor back onto the last digit. Returns
   * the cursor and the digits. One past the cursor is where the payload starts, when there is
   * one: the position after the maximal digit run.
   */
  method ScanAckId(chars: string, nextIdx: nat) returns (idx: nat, idBuilder: string)
    requires nextIdx < |chars| && IsDigit(chars[nextIdx])
    ensures idBuilder == chars[nextIdx..DigitRunEnd(chars, nextIdx)]
    ensures DigitRunEnd(chars, nextIdx) < |chars| ==> idx + 1 == DigitRunEnd(chars, nextIdx)
    ensures DigitRunEnd(chars, nextIdx) == |chars| ==> idx == |chars|
  {
    idBuilder := [chars[nextIdx]];
    idx := nextIdx;
    while true
      invariant nextIdx <= idx < DigitRunEnd(chars, nextIdx)
      invariant idBuilder == chars[nextIdx..idx + 1]
      decreases |chars| - idx
    {
      idx := idx + 1;
      if idx >= |chars| {
        break;
      }
      var c := chars[idx];
      if CodecNumberUtil.CharToNumber(c) == None {
        idx := idx - 1;
        break;
      }
      idBuilder := idBuilder + [c];
    }
  }

  /**
   * `decode`: the cursor scanner of the source, with its namespace loop and its ack-id digit
   * loop. Every index it reads is in bounds, and the cursor never underflows.
   */
  method Decode<V>(data: string, parse: string -> Result<V, string>) returns (r: Result<SocketIoPacket<V>, PacketCodecError>)
    ensures r == DecodeSpec(data, parse)
  {
    if |data| == 0 {
      return Err(DecodeError(EMPTY_DATA));
    }
    var idx := 0;
    var chars := data;

    // get packet type
    var typeResult := ConvertFromChar(chars[idx]);
    if typeResult.Err? {
      return Err(DecodeError(UNKNOWN_TYPE));
    }
    var packetType := typeResult.value;

    if packetType == BinaryAck || packetType == BinaryEvent {
      return Err(DecodeError(BINARY_UNSUPPORTED));
    }
    ghost var scanned := SocketIoPacket(packetType, ScannedNsp(data), None, None);
    assert DecodeSpec(data, parse) == DecodeAfterNsp(data, scanned, parse);

    // get packet namespace
    var nsp;
    idx, nsp := ScanNamespace(chars);

    // lookup id
    var id: Option<U32> := None;
    ghost var payloadFrom := idx + 1;
    var nextIdx := idx + 1;
    if |chars| > nextIdx {
      var nextChar := chars[nextIdx];
      if CodecNumberUtil.CharToNumber(nextChar) != None {
        assert HasId(data);
        var idBuilder;
        idx, idBuilder := ScanAckId(chars, nextIdx);
        payloadFrom := idx + 1;
        PayloadFromRunEnd(data, payloadFrom, parse);
        match ParseU32(idBuilder)
        case Some(n) =>
          id := Some(n);
        case None =>
          return Err(DecodeError(BAD_ID));
      }
    }
    assert DecodeAfterNsp(data, scanned, parse) == DecodePayload(data, payloadFrom, scanned.(id := id), parse);

    // parse json data
    idx := idx + 1;
    assert idx == payloadFrom;
    var packet := SocketIoPacket(packetType, nsp, id, None);
    assert packet == scanned.(id := id);
    if |chars| > idx {
      match parse(data[idx..])
      case Ok(v) =>
        packet := packet.(data := Some(v));
      case Err(e) =>
        return Err(DecodeError(e));
    }
    return Ok(packet);
  }

  /** Where `decode` leaves the cursor after a digit run that reaches the end, the payload is empty, as it is at the run's end. */
  lemma PayloadFromRunEnd<V>(s: string, from: nat, parse: string -> Result<V, string>)
    requires |s| > 0 && HasId(s)
    requires DigitRunEnd(s, IdStart(s)) < |s| ==> from == DigitRunEnd(s, IdStart(s))
    requires DigitRunEnd(s, IdStart(s)) == |s| ==> from == |s| + 1
    ensures forall q: SocketIoPacket<V> :: DecodePayload(s, from, q, parse) == DecodePayload(s, DigitRunEnd(s, IdStart(s)), q, parse)
  {
  }

  // ----- Properties of the grammar -----

  /** `CommaFrom` is the first comma: any position with no comma before it that ends the run is it. */
  lemma CommaFromIsFirst(s: string, i: nat, j: nat)
    requires i <= j <= |s|
    requires forall k :: i <= k < j ==> s[k] != ','
    requires j == |s| || s[j] == ','
    ensures CommaFrom(s, i) == j
  {
  }

  /** `DigitRunEnd` is the end of the maximal run of digits. */
  lemma DigitRunEndIsMaximal(s: string, i: nat, j: nat)
    requires i <= j <= |s|
    requires AllDigits(s[i..j])
    requires j == |s| || !IsDigit(s[j])
    ensures DigitRunEnd(s, i) == j
  {
  }

  /** Where the payload starts: after the digit run when there is an ack id, else at `IdStart`. */
  function AfterId(s: string): (k: nat)
    requires |s| > 0
    ensures IdStart(s) <= k
  {
    if HasId(s) then DigitRunEnd(s, IdStart(s)) else IdStart(s)
  }

  /** The three ways `decode` fails before looking past the type digit. */
  lemma DecodeTypeErrors<V>(s: string, parse: string -> Result<V, string>)
    ensures |s| == 0 ==> DecodeSpec(s, parse) == Err(DecodeError(EMPTY_DATA))
    ensures |s| > 0 && !('0' <= s[0] <= '6') ==> DecodeSpec(s, parse) == Err(DecodeError(UNKNOWN_TYPE))
    ensures |s| > 0 && (s[0] == '5' || s[0] == '6') ==> DecodeSpec(s, parse) == Err(DecodeError(BINARY_UNSUPPORTED))
    ensures DecodeSpec(s, parse).Ok? ==> '0' <= s[0] <= '4' && ToU8(DecodeSpec(s, parse).value.packetType) == s[0] as int - '0' as int
  {
    if |s| > 0 && (s[0] == '5' || s[0] == '6') {
      assert ConvertFromChar(s[0]) == Ok(if s[0] == '5' then BinaryEvent else BinaryAck) by {
        ToU8Injective(ConvertFromChar(s[0]).value, if s[0] == '5' then BinaryEvent else BinaryAck);
      }
    }
    if DecodeSpec(s, parse).Ok? {
      var t := ConvertFromChar(s[0]).value;
      assert t != BinaryEvent && t != BinaryAck;
      assert ToU8(t) <= 4;
    }
  }

  /** An accepted packet keeps the decoded namespace, ack id and payload of `DecodeAfterNsp`. */
  lemma DecodedFields<V>(s: string, parse: string -> Result<V, string>)
    requires DecodeSpec(s, parse).Ok?
    ensures |s| > 0
    ensures DecodeSpec(s, parse).value.nsp == ScannedNsp(s)
    ensures DecodeSpec(s, parse).value.id.Some? <==> HasId(s)
    ensures HasId(s) ==> ParseU32(s[IdStart(s)..AfterId(s)]) == DecodeSpec(s, parse).value.id
    ensures DecodeSpec(s, parse).value.data.None? <==> AfterId(s) >= |s|
    ensures AfterId(s) < |s| ==> parse(s[AfterId(s)..]) == Ok(DecodeSpec(s, parse).value.data.value)
  {
  }

  /**
   * The namespace scan: after a '/' in second position the namespace is every char up to and
   * excluding the next ',' (or the end), so it starts with '/' and holds no comma; otherwise
   * it is "/".
   */
  lemma DecodedNamespace<V>(s: string, parse: string -> Result<V, string>)
    requires DecodeSpec(s, parse).Ok?
    ensures var nsp := DecodeSpec(s, parse).value.nsp;
      && |nsp| > 0 && nsp[0] == '/' && ',' !in nsp
      && (HasNspSegment(s) ==> s[1..1 + |nsp|] == nsp && (1 + |nsp| == |s| || s[1 + |nsp|] == ','))
      && (!HasNspSegment(s) ==> nsp == "/")
  {
    DecodedFields(s, parse);
    if HasNspSegment(s) {
      var j := CommaFrom(s, 1);
      var nsp := s[1..j];
      assert nsp[0] == s[1];
      forall k | 0 <= k < |nsp| ensures nsp[k] != ',' {
        assert nsp[k] == s[1 + k];
      }
    }
  }

  /**
   * The ack-id scan: an id is present exactly when a digit follows the namespace segment; it is
   * the value of the maximal digit run there, and a run above `u32::MAX` is rejected.
   */
  lemma DecodedAckId<V>(s: string, parse: string -> Result<V, string>)
    requires DecodeSpec(s, parse).Ok?
    ensures var id := DecodeSpec(s, parse).value.id;
      var k := IdStart(s);
      && (id.Some? <==> k < |s| && IsDigit(s[k]))
      && (id.Some? ==> exists e :: k < e <= |s| && AllDigits(s[k..e]) && (e == |s| || !IsDigit(s[e]))
                                     && id.value == DecimalValue(s[k..e]))
  {
    DecodedFields(s, parse);
    if HasId(s) {
      var e := AfterId(s);
      ParseDigits(s[IdStart(s)..e]);
    }
  }

  /** A digit run after the namespace segment whose value exceeds `u32::MAX` fails the decode. */
  lemma AckIdOverflowFails<V>(s: string, parse: string -> Result<V, string>)
    requires |s| > 0 && '0' <= s[0] <= '4' && HasId(s)
    requires DecimalValue(s[IdStart(s)..AfterId(s)]) > U32_MAX
    ensures DecodeSpec(s, parse) == Err(DecodeError(BAD_ID))
  {
    var t := ConvertFromChar(s[0]).value;
    assert ToU8(t) <= 4;
    ParseDigits(s[IdStart(s)..AfterId(s)]);
  }

  /** A remainder the JSON parser rejects fails the decode with the parser's message. */
  lemma PayloadErrorFails<V>(s: string, parse: string -> Result<V, string>)
    requires |s| > 0 && '0' <= s[0] <= '4'
    requires HasId(s) ==> ParseU32(s[IdStart(s)..AfterId(s)]).Some?
    requires AfterId(s) < |s| && parse(s[AfterId(s)..]).Err?
    ensures DecodeSpec(s, parse) == Err(DecodeError(parse(s[AfterId(s)..]).error))
  {
    var t := ConvertFromChar(s[0]).value;
    assert ToU8(t) <= 4;
  }

  // ----- Round trip -----

  /** The packets `encode` writes unambiguously: a text type, and a '/'-led comma-free namespace. */
  predicate Encodable<V>(p: SocketIoPacket<V>) {
    && p.packetType != BinaryEvent && p.packetType != BinaryAck
    && (p.nsp == "/" || (|p.nsp| > 0 && p.nsp[0] == '/' && ',' !in p.nsp))
  }

  /**
   * What the JSON collaborator must do for the payload to survive: its text is non-empty,
   * parses back to the value, does not start with a digit (it would be read as ack id), and
   * does not start with '/' where it would be read as a namespace.
   */
  predicate PayloadRoundTrips<V(==)>(p: SocketIoPacket<V>, show: V -> string, parse: string -> Result<V, string>) {
    p.data.Some? ==>
      var t := show(p.data.value);
      && |t| > 0 && !IsDigit(t[0])
      && (p.nsp == "/" && p.id.None? ==> t[0] != '/')
      && parse(t) == Ok(p.data.value)
  }

  /** In the encoding of an encodable packet the namespace scan gives back the namespace and stops right before the id. */
  lemma NamespaceOfEncoding<V>(p: SocketIoPacket<V>, show: V -> string, parse: string -> Result<V, string>)
    requires Encodable(p) && PayloadRoundTrips(p, show, parse)
    ensures ScannedNsp(Encode(p, show)) == p.nsp
    ensures IdStart(Encode(p, show)) == 1 + |NspText(p.nsp)|
  {
    var s := Encode(p, show);
    var N, I, P := NspText(p.nsp), IdText(p.id), PayloadText(p.data, show);
    assert s == [TypeDigit(p.packetType)] + N + I + P;
    var k := 1 + |N|;
    if p.nsp != "/" {
      assert s[1] == p.nsp[0];
      assert s[1..k - 1] == p.nsp;
      assert s[k - 1] == ',';
      CommaFromIsFirst(s, 1, k - 1);
    } else if |s| > 1 {
      if p.id.Some? {
        assert s[1] == I[0];
      } else {
        assert s[1] == P[0];
      }
    }
  }

  /** In the encoding of an encodable packet the ack-id scan finds exactly the written id and stops before the payload. */
  lemma AckIdOfEncoding<V>(p: SocketIoPacket<V>, show: V -> string, parse: string -> Result<V, string>)
    requires Encodable(p) && PayloadRoundTrips(p, show, parse)
    ensures var s := Encode(p, show);
      && (HasId(s) <==> p.id.Some?)
      && AfterId(s) == 1 + |NspText(p.nsp)| + |IdText(p.id)|
      && (p.id.Some? ==> ParseU32(s[IdStart(s)..AfterId(s)]) == p.id)
      && s[AfterId(s)..] == PayloadText(p.data, show)
  {
    NamespaceOfEncoding(p, show, parse);
    var s := Encode(p, show);
    var N, I, P := NspText(p.nsp), IdText(p.id), PayloadText(p.data, show);
    assert s == [TypeDigit(p.packetType)] + N + I + P;
    var k := 1 + |N|;
    assert s[k..] == I + P;
    if p.id.Some? {
      assert s[k] == I[0];
      assert s[k..k + |I|] == I;
      if k + |I| < |s| {
        assert s[k + |I|] == P[0];
      }
      DigitRunEndIsMaximal(s, k, k + |I|);
      ParseFormattedU32(p.id.value);
    } else if k < |s| {
      assert s[k] == P[0];
    }
    assert s[k + |I|..] == P;
  }

  /** `decode(encode(p)) == p`. */
  lemma RoundTrip<V>(p: SocketIoPacket<V>, show: V -> string, parse: string -> Result<V, string>)
    requires Encodable(p) && PayloadRoundTrips(p, show, parse)
    ensures DecodeSpec(Encode(p, show), parse) == Ok(p)
  {
    var s := Encode(p, show);
    ConvertTypeDigit(p.packetType);
    NamespaceOfEncoding(p, show, parse);
    AckIdOfEncoding(p, show, parse);
  }

  /** The encode tests, for any JSON text `show` gives the payload: Connect on "/hello" with id 100 is
      `0/hello,100` and the text; Ack on "/" with no id is `3` and the text; Event on "/" with nothing is `2`. */
  lemma EncodeExamples<V>(v: V, show: V -> string)
    ensures Encode(SocketIoPacket(Connect, "/hello", Some(100), Some(v)), show) == "0/hello,100" + show(v)
    ensures Encode(SocketIoPacket(Ack, "/", None, Some(v)), show) == "3" + show(v)
    ensures Encode(SocketIoPacket(Event, "/", None, None), show) == "2"
  {
    assert NatToDecimal(100) == "100" by {
      assert NatToDecimal(1) == "1";
      assert NatToDecimal(10) == "10";
    }
  }

  /** The namespace tests: `"0/hello,"` and `"0/hello"` both give the namespace "/hello". */
  lemma DecodeNamespaceExamples<V>(parse: string -> Result<V, string>)
    ensures DecodeSpec("0/hello,", parse) == Ok(SocketIoPacket(Connect, "/hello", None, None))
    ensures DecodeSpec("0/hello", parse) == Ok(SocketIoPacket(Connect, "/hello", None, None))
  {
    var a := "0/hello,";
    CommaFromIsFirst(a, 1, 7);
    assert a[1..7] == "/hello";
    var b := "0/hello";
    CommaFromIsFirst(b, 1, 7);
    assert b[1..7] == "/hello";
  }

  /** The ack-id tests: `"0100"` and `"00"` give the ids 100 and 0. */
  lemma DecodeAckIdExamples<V>(parse: string -> Result<V, string>)
    ensures DecodeSpec("0100", parse) == Ok(SocketIoPacket(Connect, "/", Some(100), None))
    ensures DecodeSpec("00", parse) == Ok(SocketIoPacket(Connect, "/", Some(0), None))
  {
    var c := "0100";
    assert !HasNspSegment(c) && IdStart(c) == 1 && HasId(c);
    DigitRunEndIsMaximal(c, 1, 4);
    assert c[1..4] == "100";
    assert DecimalValue("100") == 100 by {
      assert "100"[..2] == "10";
      assert "10"[..1] == "1";
      assert "1"[..0] == "";
    }
    ParseDigits("100");
    assert DecodeSpec(c, parse) == DecodeAfterNsp(c, SocketIoPacket(Connect, "/", None, None), parse);
    var d := "00";
    assert !HasNspSegment(d) && IdStart(d) == 1 && HasId(d);
    DigitRunEndIsMaximal(d, 1, 2);
    assert d[1..2] == "0";
    assert DecimalValue("0") == 0 by {
      assert "0"[..0] == "";
    }
    ParseDigits("0");
    assert DecodeSpec(d, parse) == DecodeAfterNsp(d, SocketIoPacket(Connect, "/", None, None), parse);
  }
}
