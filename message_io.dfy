/** Payload construction and parsing of src/common/message_io.h: every payload
    is an envelope followed by the body of the kind the envelope names. */
module MessageIO {
  import opened DataStream
  import opened Protocol

  function Header(msgType: u8): seq<byte>
  {
    WriteEnvelope(Envelope(ProtocolMagic, ProtocolVersion, msgType))
  }

  function SerializeHello(m: HelloMsg): seq<byte>
  {
    Header(MsgHello) + WriteHello(m)
  }

  function SerializeTask(m: TaskMsg): seq<byte>
  {
    Header(MsgTask) + WriteTask(m)
  }

  function SerializeResult(m: ResultMsg): seq<byte>
  {
    Header(MsgResult) + WriteResult(m)
  }

  function SerializeError(m: ErrorMsg): seq<byte>
    requires |m.text| < MaxTextUnits
  {
    Header(MsgError) + WriteError(m)
  }

  /** The parse result record: every body slot is present, and the one the
      envelope's type names is filled in on success. */
  datatype ParsedMessage = ParsedMessage(
    env: Envelope,
    hello: HelloMsg,
    task: TaskMsg,
    result: ResultMsg,
    error: ErrorMsg,
    ok: bool,
    parseError: string)

  const EnvelopeStatusError := "QDataStream status not OK after reading envelope"
  const MismatchError := "Protocol magic/version mismatch"
  const UnknownTypeError := "Unknown message type"
  const BodyStatusError := "QDataStream status not OK after reading message body"

  function Blank(env: Envelope): ParsedMessage
  {
    ParsedMessage(env, DefaultHello, DefaultTask, DefaultResult, DefaultError, false, "")
  }

  /** Checks the envelope read, then magic and version, then the type, then
      the body read. Bytes after a complete body are not looked at. */
  function ParseMessage(buf: seq<byte>): (pm: ParsedMessage)
    ensures pm.ok ==> pm.env.magic == ProtocolMagic && pm.env.version == ProtocolVersion
    ensures pm.ok ==> MsgHello <= pm.env.msgType <= MsgError && pm.parseError == ""
    ensures !pm.ok ==> pm.parseError in {EnvelopeStatusError, MismatchError, UnknownTypeError, BodyStatusError}
  {
    match ReadEnvelope(buf)
    case None => Blank(DefaultEnvelope).(parseError := EnvelopeStatusError)
    case Some((env, body)) =>
      var pm := Blank(env);
      if env.magic != ProtocolMagic || env.version != ProtocolVersion then
        pm.(parseError := MismatchError)
      else if env.msgType == MsgHello then
        match ReadHello(body)
        case None => pm.(parseError := BodyStatusError)
        case Some((m, _)) => pm.(hello := m, ok := true)
      else if env.msgType == MsgTask then
        match ReadTask(body)
        case None => pm.(parseError := BodyStatusError)
        case Some((m, _)) => pm.(task := m, ok := true)
      else if env.msgType == MsgResult then
        match ReadResult(body)
        case None => pm.(parseError := BodyStatusError)
        case Some((m, _)) => pm.(result := m, ok := true)
      else if env.msgType == MsgError then
        match ReadError(body)
        case None => pm.(parseError := BodyStatusError)
        case Some((m, _)) => pm.(error := m, ok := true)
      else
        pm.(parseError := UnknownTypeError)
  }

  // ------------------------------------------------------------ the layout

  lemma {:induction false} HeaderBytes(msgType: u8)
    ensures Header(msgType) == [0x4E, 0x50, 0x52, 0x4A, 0x00, 0x01, msgType]
  {
    EnvelopeLayout(Envelope(ProtocolMagic, ProtocolVersion, msgType));
    var w := Header(msgType);
    EncodeDecode(w[..4]);
    EncodeDecode(w[4..6]);
    Pow256Widths();
    assert w[..4] == EncodeBE(ProtocolMagic, 4);
    assert w[4..6] == EncodeBE(ProtocolVersion, 2);
    assert w == w[..4] + w[4..6] + [w[6]];
  }

  lemma SerializedLayout(hello: HelloMsg, task: TaskMsg, result: ResultMsg, error: ErrorMsg)
    requires |error.text| < MaxTextUnits
    ensures SerializeHello(hello) == [0x4E, 0x50, 0x52, 0x4A, 0x00, 0x01, MsgHello] + WriteU32(hello.cores)
    ensures |SerializeHello(hello)| == 7 + 4
    ensures SerializeTask(task)[..7] == [0x4E, 0x50, 0x52, 0x4A, 0x00, 0x01, MsgTask]
    ensures |SerializeTask(task)| == 7 + 3 * 8 + 1 + 4 + 4
    ensures SerializeResult(result) == [0x4E, 0x50, 0x52, 0x4A, 0x00, 0x01, MsgResult] + WriteDouble(result.value)
    ensures |SerializeResult(result)| == 7 + 8
    ensures SerializeError(error)[..7] == [0x4E, 0x50, 0x52, 0x4A, 0x00, 0x01, MsgError]
    ensures |SerializeError(error)| == 7 + 4 + 2 * |error.text|
  {
    HeaderBytes(MsgHello);
    HeaderBytes(MsgTask);
    HeaderBytes(MsgResult);
    HeaderBytes(MsgError);
    Pow256Widths();
  }

  // ------------------------------------------------------------ round trips

  lemma {:induction false} ParseHello(m: HelloMsg, t: seq<byte>)
    ensures ParseMessage(SerializeHello(m) + t)
         == Blank(Envelope(ProtocolMagic, ProtocolVersion, MsgHello)).(hello := m, ok := true)
  {
    assert SerializeHello(m) + t == Header(MsgHello) + (WriteHello(m) + t);
    EnvelopeRoundTrip(Envelope(ProtocolMagic, ProtocolVersion, MsgHello), WriteHello(m) + t);
    HelloRoundTrip(m, t);
  }

  lemma {:induction false} ParseTask(m: TaskMsg, t: seq<byte>)
    ensures ParseMessage(SerializeTask(m) + t)
         == Blank(Envelope(ProtocolMagic, ProtocolVersion, MsgTask)).(task := m, ok := true)
  {
    assert SerializeTask(m) + t == Header(MsgTask) + (WriteTask(m) + t);
    EnvelopeRoundTrip(Envelope(ProtocolMagic, ProtocolVersion, MsgTask), WriteTask(m) + t);
    TaskRoundTrip(m, t);
  }

  lemma {:induction false} ParseResult(m: ResultMsg, t: seq<byte>)
    ensures ParseMessage(SerializeResult(m) + t)
         == Blank(Envelope(ProtocolMagic, ProtocolVersion, MsgResult)).(result := m, ok := true)
  {
    assert SerializeResult(m) + t == Header(MsgResult) + (WriteResult(m) + t);
    EnvelopeRoundTrip(Envelope(ProtocolMagic, ProtocolVersion, MsgResult), WriteResult(m) + t);
    ResultRoundTrip(m, t);
  }

  lemma {:induction false} ParseError(m: ErrorMsg, t: seq<byte>)
    requires |m.text| < MaxTextUnits
    ensures ParseMessage(SerializeError(m) + t)
         == Blank(Envelope(ProtocolMagic, ProtocolVersion, MsgError)).(error := m, ok := true)
  {
    var env, body := Envelope(ProtocolMagic, ProtocolVersion, MsgError), WriteError(m) + t;
    assert SerializeError(m) + t == WriteEnvelope(env) + body;
    EnvelopeRoundTrip(env, body);
    ErrorRoundTrip(m, t);
    assert ReadEnvelope(SerializeError(m) + t) == Some((env, body));
    assert ReadError(body) == Some((m, t));
  }

  /** With no trailing bytes: what was serialised is what is parsed. */
  lemma RoundTrips(hello: HelloMsg, task: TaskMsg, result: ResultMsg, error: ErrorMsg)
    requires |error.text| < MaxTextUnits
    ensures ParseMessage(SerializeHello(hello)).ok && ParseMessage(SerializeHello(hello)).hello == hello
    ensures ParseMessage(SerializeTask(task)).ok && ParseMessage(SerializeTask(task)).task == task
    ensures ParseMessage(SerializeResult(result)).ok && ParseMessage(SerializeResult(result)).result == result
    ensures ParseMessage(SerializeError(error)).ok && ParseMessage(SerializeError(error)).error == error
  {
    ParseHello(hello, []);
    ParseTask(task, []);
    ParseResult(result, []);
    ParseError(error, []);
    assert SerializeHello(hello) + [] == SerializeHello(hello);
    assert SerializeTask(task) + [] == SerializeTask(task);
    assert SerializeResult(result) + [] == SerializeResult(result);
    assert SerializeError(error) + [] == SerializeError(error);
  }

  // ------------------------------------------------------- failure cases

  lemma {:induction false} ShortPayloadRejected(buf: seq<byte>)
    requires |buf| < 7
    ensures !ParseMessage(buf).ok && ParseMessage(buf).parseError == EnvelopeStatusError
  {
    Pow256Widths();
    if ReadU32(buf).Some? {
      var s1 := ReadU32(buf).value.1;
      assert |s1| == |buf| - 4;
      if ReadU16(s1).Some? {
        assert |ReadU16(s1).value.1| == |buf| - 6;
      }
    }
  }

  /** The envelope fields as they sit in the first seven bytes. */
  lemma {:induction false} EnvelopeFields(buf: seq<byte>)
    requires |buf| >= 7
    ensures ReadEnvelope(buf).Some?
    ensures ReadEnvelope(buf).value.0 == Envelope(DecodeBE(buf[..4]), DecodeBE(buf[4..6]), buf[6])
    ensures ReadEnvelope(buf).value.1 == buf[7..]
  {
    Pow256Widths();
    var s1 := buf[4..];
    assert s1[..2] == buf[4..6];
    var s2 := s1[2..];
    assert s2 == buf[6..];
    assert s2[..1] == [buf[6]];
    assert DecodeBE([buf[6]]) == buf[6] by {
      assert [buf[6]][..0] == [];
    }
    assert s2[1..] == buf[7..];
  }

  lemma {:induction false} MismatchRejected(buf: seq<byte>)
    requires |buf| >= 7
    requires DecodeBE(buf[..4]) != ProtocolMagic || DecodeBE(buf[4..6]) != ProtocolVersion
    ensures !ParseMessage(buf).ok && ParseMessage(buf).parseError == MismatchError
    ensures ParseMessage(buf).env.msgType == buf[6]
  {
    EnvelopeFields(buf);
  }

  /** The magic and version bytes of a well-formed header. */
  predicate GoodHeader(buf: seq<byte>)
  {
    |buf| >= 7 && buf[..6] == [0x4E, 0x50, 0x52, 0x4A, 0x00, 0x01]
  }

  lemma {:induction false} GoodHeaderEnvelope(buf: seq<byte>)
    requires GoodHeader(buf)
    ensures ReadEnvelope(buf) == Some((Envelope(ProtocolMagic, ProtocolVersion, buf[6]), buf[7..]))
  {
    EnvelopeFields(buf);
    HeaderBytes(buf[6]);
    var h := Header(buf[6]);
    assert buf[..4] == h[..4] && buf[4..6] == h[4..6];
    EnvelopeLayout(Envelope(ProtocolMagic, ProtocolVersion, buf[6]));
  }

  lemma {:induction false} UnknownTypeRejected(buf: seq<byte>)
    requires GoodHeader(buf)
    requires buf[6] !in {MsgHello, MsgTask, MsgResult, MsgError}
    ensures !ParseMessage(buf).ok && ParseMessage(buf).parseError == UnknownTypeError
  {
    GoodHeaderEnvelope(buf);
  }

  /** The fixed part of each body: everything for Hello, Task and Result, the
      byte count for Error. */
  function FixedBodySize(msgType: u8): nat
  {
    if msgType == MsgHello then 4
    else if msgType == MsgTask then 3 * 8 + 1 + 4 + 4
    else if msgType == MsgResult then 8
    else 4
  }

  lemma {:induction false} ShortBodyRejected(buf: seq<byte>)
    requires GoodHeader(buf)
    requires buf[6] in {MsgHello, MsgTask, MsgResult, MsgError}
    requires |buf| < 7 + FixedBodySize(buf[6])
    ensures !ParseMessage(buf).ok && ParseMessage(buf).parseError == BodyStatusError
  {
    GoodHeaderEnvelope(buf);
    Pow256Widths();
  }

  /** An Error body whose byte count runs past the end of the payload. */
  lemma {:induction false} TruncatedTextRejected(buf: seq<byte>)
    requires GoodHeader(buf) && buf[6] == MsgError && |buf| >= 11
    requires DecodeBE(buf[7..11]) > |buf| - 11
    ensures !ParseMessage(buf).ok && ParseMessage(buf).parseError == BodyStatusError
  {
    GoodHeaderEnvelope(buf);
    Pow256Widths();
    var body := buf[7..];
    assert body[..4] == buf[7..11];
    var (count, s1) := ReadU32(body).value;
    assert |s1| == |buf| - 11;
    if count % 2 == 0 {
      UnitsNeedBytes(s1, count / 2);
    }
  }

  lemma {:induction false} UnitsNeedBytes(s: seq<byte>, n: nat)
    requires |s| < 2 * n
    ensures ReadUnits(s, n).None?
  {
    Pow256Widths();
    if n > 0 && ReadU16(s).Some? {
      UnitsNeedBytes(ReadU16(s).value.1, n - 1);
    }
  }

  // --------------------------------------------- success means well-formed

  /** The serialised form of the message a successful parse describes. */
  function Reserialize(pm: ParsedMessage): seq<byte>
    requires |pm.error.text| < MaxTextUnits
  {
    if pm.env.msgType == MsgHello then SerializeHello(pm.hello)
    else if pm.env.msgType == MsgTask then SerializeTask(pm.task)
    else if pm.env.msgType == MsgResult then SerializeResult(pm.result)
    else SerializeError(pm.error)
  }

  /** Conversely to the round trips: a payload parses successfully only when
      it begins with the serialised form of the message it yields, so a
      successful parse loses nothing and the rest of the payload is ignored. */
  lemma {:induction false} ParsedIsPrefix(buf: seq<byte>)
    requires ParseMessage(buf).ok
    ensures |ParseMessage(buf).error.text| < MaxTextUnits
    ensures |Reserialize(ParseMessage(buf))| <= |buf|
    ensures buf[..|Reserialize(ParseMessage(buf))|] == Reserialize(ParseMessage(buf))
  {
    var pm := ParseMessage(buf);
    var (env, body) := ReadEnvelope(buf).value;
    EnvelopeReadExact(buf);
    assert buf == Header(env.msgType) + body;
    if env.msgType == MsgHello {
      HelloReadExact(body);
      assert body == WriteHello(pm.hello) + ReadHello(body).value.1;
    } else if env.msgType == MsgTask {
      TaskReadExact(body);
      assert body == WriteTask(pm.task) + ReadTask(body).value.1;
    } else if env.msgType == MsgResult {
      ResultReadExact(body);
      assert body == WriteResult(pm.result) + ReadResult(body).value.1;
    } else {
      ErrorReadExact(body);
      assert body == WriteError(pm.error) + ReadError(body).value.1;
    }
  }
}
