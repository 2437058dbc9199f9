/**
 * Model of src/socket_io_parser/socket_io_parser_impl.rs, the earlier draft of the Socket.IO
 * text codec. Its `encode` is the codec's. Its `decode` diverges: once a second digit follows
 * the first digit of an ack id, the id loop steps back onto the same position on every pass
 * and never exits, and no input reaches the JSON branch. The model makes divergence an
 * explicit outcome, `Hangs`, and proves against a step-by-step model of the loop that the
 * loop indeed never exits on exactly those inputs.
 */
module SocketIoParserImpl {
  import opened Wrappers
  import opened Decimal
  import opened CodecPacketType
  import opened SocketIoPacket
  import ParserPacketType
  import ParserNumberUtil
  import DefaultPacketCodec

  /** What a call of `decode` does: return a result, or run forever. */
  datatype DraftOutcome<V> = Returns(result: Result<SocketIoPacket<V>, ()>) | Hangs

  /** `encode`: the same text as the codec's `encode`. */
  function Encode<V>(p: SocketIoPacket<V>, show: V -> string): (e: string)
    ensures e == DefaultPacketCodec.Encode(p, show)
  {
    [DigitChar(ParserPacketType.Into(p.packetType))] + DefaultPacketCodec.NspText(p.nsp)
      + DefaultPacketCodec.IdText(p.id) + DefaultPacketCodec.PayloadText(p.data, show)
  }

  /** Some digit occurs in `s` at or after `from`. */
  predicate DigitFrom(s: string, from: nat) {
    exists j :: from <= j < |s| && IsDigit(s[j])
  }

  /**
   * What `decode` does, on positions of the input. The namespace scan is the codec's. After it,
   * a non-digit leaves the id text empty, which never parses; a digit followed anywhere later
   * by another digit sends the id loop into a cycle; a lone final digit is the ack id; and a
   * digit followed only by non-digits puts those into the id text, which then fails to parse.
   */
  function DecodeSpec<V>(s: string): DraftOutcome<V> {
    if |s| == 0 then Returns(Err(()))
    else
      match ParserPacketType.ConvertFromChar(s[0])
      case Err(_) => Returns(Err(()))
      case Ok(t) =>
        if t == BinaryAck || t == BinaryEvent then Returns(Err(()))
        else DecodeAfterNsp(s, SocketIoPacket(t, DefaultPacketCodec.ScannedNsp(s), None, None))
  }

  /** After the namespace scan: the id loop, applied to the packet `p` decoded so far. */
  function DecodeAfterNsp<V>(s: string, p: SocketIoPacket<V>): DraftOutcome<V>
    requires |s| > 0
  {
    var k := DefaultPacketCodec.IdStart(s);
    if k >= |s| then Returns(Ok(p))
    else if !IsDigit(s[k]) then Returns(Err(()))
    else if DigitFrom(s, k + 1) then Hangs
    else if k + 1 == |s| then Returns(Ok(p.(id := Some(s[k] as int - '0' as int))))
    else Returns(Err(()))
  }

  /** `decode`, statement by statement; the namespace loop is the codec's `ScanNamespace`. */
  method Decode<V>(data: string) returns (r: DraftOutcome<V>)
    ensures r == DecodeSpec(data)
  {
    if |data| == 0 {
      return Returns(Err(()));
    }
    var chars := data;
    var idx: nat := 0;
    var packetType;
    match ParserPacketType.ConvertFromChar(chars[idx]) {
      case Err(_) =>
        return Returns(Err(()));
      case Ok(t) =>
        packetType := t;
    }
    var packet: SocketIoPacket<V> := SocketIoPacket(packetType, "", None, None);
    if packetType == BinaryAck || packetType == BinaryEvent {
      return Returns(Err(()));
    }
    var nsp;
    idx, nsp := DefaultPacketCodec.ScanNamespace(chars);
    packet := packet.(nsp := nsp);

    assert DecodeSpec(data) == DecodeAfterNsp(data, packet);
    r := DecodeAfterNamespace(chars, idx, packet);
  }

  /** The rest of `decode`, from the cursor the namespace scan leaves: the id loop, then the JSON branch. */
  method DecodeAfterNamespace<V>(chars: string, cursor: nat, decoded: SocketIoPacket<V>) returns (r: DraftOutcome<V>)
    requires |chars| > 0 && cursor == DefaultPacketCodec.NspCursor(chars)
    ensures r == DecodeAfterNsp(chars, decoded)
  {
    var idx := cursor;
    var packet := decoded;
    var nextIdx := idx + 1;
    if |chars| > nextIdx {
      var idBuilder := "";
      var nextChar := chars[nextIdx];
      if ParserNumberUtil.CharToNumber(nextChar) != None {
        idBuilder := idBuilder + [nextChar];
        idx := idx + 1;
        while true
          invariant nextIdx <= idx < |chars|
          invariant forall j :: nextIdx < j <= idx ==> !IsDigit(chars[j])
          invariant idBuilder == chars[nextIdx..idx + 1]
          decreases |chars| - idx
        {
          idx := idx + 1;
          if idx >= |chars| {
            break;
          }
          var c := chars[idx];
          if ParserNumberUtil.CharToNumber(c) != None {
            assert DigitFrom(chars, nextIdx + 1);
            idx := idx - 1;
            // The cursor is back where this pass began, so every later pass repeats it
            // (IdLoopSpins).
            return Hangs;
          }
          assert chars[nextIdx..idx + 1] == chars[nextIdx..idx] + [c];
          idBuilder := idBuilder + [c];
        }
        if idx > nextIdx + 1 {
          ParseRejectsNonDigit(idBuilder, 1);
        } else {
          assert idBuilder == [nextChar];
          ParseSingleDigit(nextChar);
        }
      }
      match ParseU32(idBuilder) {
        case Some(n) =>
          packet := packet.(id := Some(n));
        case None =>
          return Returns(Err(()));
      }
    }

    idx := idx + 1;
    if |chars| > idx {
      // The JSON branch: every path that gets here has left the cursor at (or past) the end.
      assert false;
    }
    return Returns(Ok(packet));
  }

  /** The id loop's state: cursor, id text so far, and whether the loop has exited. */
  datatype IdLoopState = IdLoopState(idx: nat, idBuilder: string, exited: bool)

  /** One pass of the id loop, as written: a digit moves the cursor back by one but is still pushed. */
  function IdLoopPass(chars: string, st: IdLoopState): IdLoopState {
    var i := st.idx + 1;
    if i >= |chars| then IdLoopState(i, st.idBuilder, true)
    else
      var c := chars[i];
      IdLoopState(if ParserNumberUtil.CharToNumber(c) != None then i - 1 else i, st.idBuilder + [c], false)
  }

  /** The state after `passes` passes of the loop (an exited loop stays put). */
  function RunIdLoop(chars: string, st: IdLoopState, passes: nat): IdLoopState
    decreases passes
  {
    if passes == 0 || st.exited then st else RunIdLoop(chars, IdLoopPass(chars, st), passes - 1)
  }

  /** With a digit right after the cursor, no number of passes exits the loop, and the id text grows on every pass. */
  lemma {:induction false} IdLoopSpins(chars: string, st: IdLoopState, passes: nat)
    requires !st.exited && st.idx + 1 < |chars| && IsDigit(chars[st.idx + 1])
    ensures var e := RunIdLoop(chars, st, passes);
      !e.exited && e.idx == st.idx && |e.idBuilder| == |st.idBuilder| + passes
    decreases passes
  {
    if passes > 0 {
      IdLoopSpins(chars, IdLoopPass(chars, st), passes - 1);
    }
  }

  /** Over a stretch of non-digits the loop advances one char per pass, pushing each. */
  lemma {:induction false} IdLoopAdvances(chars: string, st: IdLoopState, m: nat)
    requires !st.exited && st.idx <= m < |chars|
    requires forall j :: st.idx < j <= m ==> !IsDigit(chars[j])
    ensures RunIdLoop(chars, st, m - st.idx) == IdLoopState(m, st.idBuilder + chars[st.idx + 1..m + 1], false)
    decreases m - st.idx
  {
    if m == st.idx {
      assert chars[st.idx + 1..m + 1] == [];
    } else {
      var next := IdLoopPass(chars, st);
      assert next == IdLoopState(st.idx + 1, st.idBuilder + [chars[st.idx + 1]], false);
      IdLoopAdvances(chars, next, m);
      assert [chars[st.idx + 1]] + chars[st.idx + 2..m + 1] == chars[st.idx + 1..m + 1];
    }
  }

  /** `a` passes and then `b` more are `a + b` passes. */
  lemma {:induction false} RunIdLoopSplits(chars: string, st: IdLoopState, a: nat, b: nat)
    ensures RunIdLoop(chars, st, a + b) == RunIdLoop(chars, RunIdLoop(chars, st, a), b)
    decreases a
  {
    if a > 0 && !st.exited {
      RunIdLoopSplits(chars, IdLoopPass(chars, st), a - 1, b);
    } else if st.exited {
      assert RunIdLoop(chars, st, b) == st;
    }
  }

  /** The loop as `decode` enters it: cursor on the first id digit, that digit pushed. */
  function IdLoopEntry(s: string, k: nat): IdLoopState
    requires k < |s|
  {
    IdLoopState(k, [s[k]], false)
  }

  /** The first digit at or after `from`. */
  function FirstDigit(s: string, from: nat): (j: nat)
    requires DigitFrom(s, from)
    ensures from <= j < |s| && IsDigit(s[j])
    ensures forall i :: from <= i < j ==> !IsDigit(s[i])
    decreases |s| - from
  {
    if IsDigit(s[from]) then from else FirstDigit(s, from + 1)
  }

  /** Non-digits up to `m` and a digit at `m + 1`: however many passes run, the loop has not exited. */
  lemma {:induction false} NeverExits(chars: string, st: IdLoopState, m: nat, passes: nat)
    requires !st.exited && st.idx <= m && m + 1 < |chars| && IsDigit(chars[m + 1])
    requires forall j :: st.idx < j <= m ==> !IsDigit(chars[j])
    ensures !RunIdLoop(chars, st, passes).exited
    decreases m - st.idx, passes
  {
    if st.idx == m {
      IdLoopSpins(chars, st, passes);
    } else if passes > 0 {
      NeverExits(chars, IdLoopPass(chars, st), m, passes - 1);
    }
  }

  /** On every input `DecodeSpec` calls `Hangs`, the id loop `decode` enters never exits. */
  lemma DecodeSpins(s: string)
    requires DecodeSpec<()>(s) == Hangs
    ensures |s| > 0 && DefaultPacketCodec.IdStart(s) < |s|
    ensures forall passes: nat :: !RunIdLoop(s, IdLoopEntry(s, DefaultPacketCodec.IdStart(s)), passes).exited
  {
    var k := DefaultPacketCodec.IdStart(s);
    var j := FirstDigit(s, k + 1);
    forall passes: nat
      ensures !RunIdLoop(s, IdLoopEntry(s, k), passes).exited
    {
      NeverExits(s, IdLoopEntry(s, k), j - 1, passes);
    }
  }

  /** On every other input with an id digit, the loop exits at the end, holding the rest of the input. */
  lemma IdLoopExits(s: string, k: nat)
    requires k < |s| && !DigitFrom(s, k + 1)
    ensures RunIdLoop(s, IdLoopEntry(s, k), |s| - k) == IdLoopState(|s|, s[k..], true)
  {
    var st := IdLoopEntry(s, k);
    assert forall j :: k < j <= |s| - 1 ==> !IsDigit(s[j]);
    IdLoopAdvances(s, st, |s| - 1);
    var last := RunIdLoop(s, st, |s| - 1 - k);
    assert last == IdLoopState(|s| - 1, [s[k]] + s[k + 1..], false);
    assert RunIdLoop(s, last, 1) == IdLoopState(|s|, last.idBuilder, true);
    RunIdLoopSplits(s, st, |s| - 1 - k, 1);
    assert [s[k]] + s[k + 1..] == s[k..] by {
      assert s[k..] == [s[k]] + s[k..][1..];
    }
  }

  /** Whatever the draft does decode, the codec decodes to the same packet. */
  lemma AgreesWithCodec<V>(s: string, parse: string -> Result<V, string>)
    requires DecodeSpec<V>(s).Returns? && DecodeSpec<V>(s).result.Ok?
    ensures DefaultPacketCodec.DecodeSpec(s, parse) == Ok(DecodeSpec<V>(s).result.value)
  {
    var k := DefaultPacketCodec.IdStart(s);
    if k < |s| {
      assert IsDigit(s[k]) && k + 1 == |s|;
      ParseSingleDigit(s[k]);
      assert s[k..k + 1] == [s[k]];
      DefaultPacketCodec.DigitRunEndIsMaximal(s, k, k + 1);
    }
  }

  /**
   * The draft never returns a packet with a payload: a packet the codec encodes and decodes
   * back with its payload does not come back from the draft's `decode`.
   */
  lemma NoPayloadDecodes<V>(p: SocketIoPacket<V>, show: V -> string, parse: string -> Result<V, string>)
    requires DefaultPacketCodec.Encodable(p) && DefaultPacketCodec.PayloadRoundTrips(p, show, parse)
    requires p.data.Some?
    ensures DefaultPacketCodec.DecodeSpec(Encode(p, show), parse) == Ok(p)
    ensures DecodeSpec<V>(Encode(p, show)) != Returns(Ok(p))
  {
    DefaultPacketCodec.RoundTrip(p, show, parse);
  }

  /** Concrete runs: a lone id digit, a two-digit id, an event without an id, a bare namespace. */
  lemma DecodeExamples()
    ensures DecodeSpec<()>("01") == Returns(Ok(SocketIoPacket(Connect, "/", Some(1), None)))
    ensures DecodeSpec<()>("0100") == Hangs
    ensures DecodeSpec<()>("2[\"hello\"]") == Returns(Err(()))
    ensures DecodeSpec<()>("0/chat,") == Returns(Ok(SocketIoPacket(Connect, "/chat", None, None)))
  {
    assert DigitFrom("0100", 2) by { assert IsDigit("0100"[2]); }
    assert DefaultPacketCodec.CommaFrom("0/chat,", 1) == 6 by {
      DefaultPacketCodec.CommaFromIsFirst("0/chat,", 1, 6);
    }
    assert "0/chat,"[1..6] == "/chat";
  }
}
