/** The wire protocol of src/common/protocol.h: constants, message records and
    the field-by-field stream operators, as writer and reader functions over
    byte sequences. */
module Protocol {
  import opened DataStream

  /** 'NPRJ', the first four bytes of every payload. */
  const ProtocolMagic: u32 := 0x4E50524A
  const ProtocolVersion: u16 := 1

  // MessageType: the enum is a raw byte, so a decoded value may be any u8.
  const MsgHello: u8 := 1
  const MsgTask: u8 := 2
  const MsgResult: u8 := 3
  const MsgError: u8 := 4

  // MethodType: also a raw byte on the wire.
  const MidpointRectangles: u8 := 1
  const Trapezoids: u8 := 2
  const Simpson: u8 := 3

  datatype Envelope = Envelope(magic: u32, version: u16, msgType: u8)

  datatype HelloMsg = HelloMsg(cores: u32)

  datatype TaskMsg = TaskMsg(a: Double, b: Double, h: Double, methodType: u8,
                             clientIndex: u32, clientCount: u32)

  datatype ResultMsg = ResultMsg(value: Double)

  /** The text of a QString: its UTF-16 code units. */
  datatype ErrorMsg = ErrorMsg(text: seq<u16>)

  /** Texts this long or longer would need more than a u32 byte count. */
  const MaxTextUnits := 0x8000_0000

  // Default-constructed records, as the C++ member initialisers give them.
  const DefaultEnvelope := Envelope(ProtocolMagic, ProtocolVersion, MsgError)
  const DefaultHello := HelloMsg(0)
  const DefaultTask := TaskMsg(0, 0, 0, Simpson, 0, 0)
  const DefaultResult := ResultMsg(0)
  const DefaultError := ErrorMsg([])

  // ---------------------------------------------------------------- writers

  function WriteEnvelope(e: Envelope): seq<byte>
  {
    WriteU32(e.magic) + WriteU16(e.version) + WriteU8(e.msgType)
  }

  function WriteHello(m: HelloMsg): seq<byte>
  {
    WriteU32(m.cores)
  }

  function WriteTask(m: TaskMsg): seq<byte>
  {
    WriteDouble(m.a) + WriteDouble(m.b) + WriteDouble(m.h) + WriteU8(m.methodType)
    + WriteU32(m.clientIndex) + WriteU32(m.clientCount)
  }

  function WriteResult(m: ResultMsg): seq<byte>
  {
    WriteDouble(m.value)
  }

  function WriteUnits(t: seq<u16>): (s: seq<byte>)
    ensures |s| == 2 * |t|
  {
    Pow256Widths();
    if t == [] then [] else WriteU16(t[0]) + WriteUnits(t[1..])
  }

  /** A QString as a u32 byte count followed by its code units, big-endian. */
  function WriteError(m: ErrorMsg): seq<byte>
    requires |m.text| < MaxTextUnits
  {
    WriteU32(2 * |m.text|) + WriteUnits(m.text)
  }

  // ---------------------------------------------------------------- readers

  function ReadEnvelope(s: seq<byte>): Option<(Envelope, seq<byte>)>
  {
    match ReadU32(s)
    case None => None
    case Some((magic, s1)) =>
      match ReadU16(s1)
      case None => None
      case Some((version, s2)) =>
        match ReadU8(s2)
        case None => None
        case Some((t, s3)) => Some((Envelope(magic, version, t), s3))
  }

  function ReadHello(s: seq<byte>): Option<(HelloMsg, seq<byte>)>
  {
    match ReadU32(s)
    case None => None
    case Some((cores, s1)) => Some((HelloMsg(cores), s1))
  }

  function ReadTask(s: seq<byte>): Option<(TaskMsg, seq<byte>)>
  {
    match ReadDouble(s)
    case None => None
    case Some((a, s1)) =>
      match ReadDouble(s1)
      case None => None
      case Some((b, s2)) =>
        match ReadDouble(s2)
        case None => None
        case Some((h, s3)) =>
          match ReadU8(s3)
          case None => None
          case Some((mt, s4)) =>
            match ReadU32(s4)
            case None => None
            case Some((index, s5)) =>
              match ReadU32(s5)
              case None => None
              case Some((count, s6)) => Some((TaskMsg(a, b, h, mt, index, count), s6))
  }

  function ReadResult(s: seq<byte>): Option<(ResultMsg, seq<byte>)>
  {
    match ReadDouble(s)
    case None => None
    case Some((v, s1)) => Some((ResultMsg(v), s1))
  }

  function ReadUnits(s: seq<byte>, n: nat): (r: Option<(seq<u16>, seq<byte>)>)
    ensures r.Some? ==> |r.value.0| == n
  {
    if n == 0 then Some(([], s))
    else
      match ReadU16(s)
      case None => None
      case Some((u, s1)) =>
        match ReadUnits(s1, n - 1)
        case None => None
        case Some((us, s2)) => Some(([u] + us, s2))
  }

  /** Reading a QString fails on an odd byte count (corrupt data) or when the
      stream ends before the announced count. */
  function ReadError(s: seq<byte>): Option<(ErrorMsg, seq<byte>)>
  {
    match ReadU32(s)
    case None => None
    case Some((bytes, s1)) =>
      if bytes % 2 == 1 then None
      else
        match ReadUnits(s1, bytes / 2)
        case None => None
        case Some((units, s2)) => Some((ErrorMsg(units), s2))
  }

  // ------------------------------------------------------- the byte layout

  lemma EnvelopeLayout(e: Envelope)
    ensures |WriteEnvelope(e)| == 7
    ensures DecodeBE(WriteEnvelope(e)[..4]) == e.magic
    ensures DecodeBE(WriteEnvelope(e)[4..6]) == e.version
    ensures WriteEnvelope(e)[6] == e.msgType
  {
    Pow256Widths();
    var w := WriteEnvelope(e);
    assert w[..4] == WriteU32(e.magic);
    assert w[4..6] == WriteU16(e.version);
    assert w[6..] == WriteU8(e.msgType);
    DecodeEncode(e.magic, 4);
    DecodeEncode(e.version, 2);
  }

  // ------------------------------------------------------------ round trips

  lemma {:induction false} EnvelopeRoundTrip(e: Envelope, t: seq<byte>)
    ensures ReadEnvelope(WriteEnvelope(e) + t) == Some((e, t))
  {
    var w1, w2, w3 := WriteU32(e.magic), WriteU16(e.version), WriteU8(e.msgType);
    assert WriteEnvelope(e) + t == w1 + (w2 + (w3 + t));
    ReadWriteU32(e.magic, w2 + (w3 + t));
    ReadWriteU16(e.version, w3 + t);
    ReadWriteU8(e.msgType, t);
  }

  lemma {:induction false} HelloRoundTrip(m: HelloMsg, t: seq<byte>)
    ensures ReadHello(WriteHello(m) + t) == Some((m, t))
  {
    ReadWriteU32(m.cores, t);
  }

  lemma {:induction false} TaskRoundTrip(m: TaskMsg, t: seq<byte>)
    ensures ReadTask(WriteTask(m) + t) == Some((m, t))
  {
    var r6 := WriteU32(m.clientCount) + t;
    var r5 := WriteU32(m.clientIndex) + r6;
    var r4 := WriteU8(m.methodType) + r5;
    var r3 := WriteDouble(m.h) + r4;
    var r2 := WriteDouble(m.b) + r3;
    assert WriteTask(m) + t == WriteDouble(m.a) + r2;
    ReadWriteDouble(m.a, r2);
    ReadWriteDouble(m.b, r3);
    ReadWriteDouble(m.h, r4);
    ReadWriteU8(m.methodType, r5);
    ReadWriteU32(m.clientIndex, r6);
    ReadWriteU32(m.clientCount, t);
  }

  lemma {:induction false} ResultRoundTrip(m: ResultMsg, t: seq<byte>)
    ensures ReadResult(WriteResult(m) + t) == Some((m, t))
  {
    ReadWriteDouble(m.value, t);
  }

  lemma {:induction false} UnitsRoundTrip(u: seq<u16>, t: seq<byte>)
    ensures ReadUnits(WriteUnits(u) + t, |u|) == Some((u, t))
  {
    if u != [] {
      assert WriteUnits(u) + t == WriteU16(u[0]) + (WriteUnits(u[1..]) + t);
      ReadWriteU16(u[0], WriteUnits(u[1..]) + t);
      UnitsRoundTrip(u[1..], t);
      assert [u[0]] + u[1..] == u;
    } else {
      assert WriteUnits(u) + t == t;
    }
  }

  lemma {:induction false} ErrorRoundTrip(m: ErrorMsg, t: seq<byte>)
    requires |m.text| < MaxTextUnits
    ensures ReadError(WriteError(m) + t) == Some((m, t))
  {
    assert WriteError(m) + t == WriteU32(2 * |m.text|) + (WriteUnits(m.text) + t);
    ReadWriteU32(2 * |m.text|, WriteUnits(m.text) + t);
    UnitsRoundTrip(m.text, t);
  }

  // ----------------------------- a successful read consumed a written form

  lemma Regroup3(x1: seq<byte>, x2: seq<byte>, x3: seq<byte>, t: seq<byte>)
    ensures x1 + x2 + x3 + t == x1 + (x2 + (x3 + t))
  {
  }

  lemma Regroup6(x1: seq<byte>, x2: seq<byte>, x3: seq<byte>, x4: seq<byte>, x5: seq<byte>, x6: seq<byte>,
                 t: seq<byte>)
    ensures x1 + x2 + x3 + x4 + x5 + x6 + t == x1 + (x2 + (x3 + (x4 + (x5 + (x6 + t)))))
  {
  }

  lemma {:induction false} EnvelopeReadExact(s: seq<byte>)
    requires ReadEnvelope(s).Some?
    ensures WriteEnvelope(ReadEnvelope(s).value.0) + ReadEnvelope(s).value.1 == s
  {
    var (magic, s1) := ReadU32(s).value;
    var (version, s2) := ReadU16(s1).value;
    var (t, s3) := ReadU8(s2).value;
    assert ReadEnvelope(s) == Some((Envelope(magic, version, t), s3));
    assert s == WriteU32(magic) + s1 by { WriteReadU32(s); }
    assert s1 == WriteU16(version) + s2 by { WriteReadU16(s1); }
    assert s2 == WriteU8(t) + s3 by { WriteReadU8(s2); }
    Regroup3(WriteU32(magic), WriteU16(version), WriteU8(t), s3);
  }

  lemma {:induction false} HelloReadExact(s: seq<byte>)
    requires ReadHello(s).Some?
    ensures WriteHello(ReadHello(s).value.0) + ReadHello(s).value.1 == s
  {
    WriteReadU32(s);
  }

  lemma {:induction false} TaskReadExact(s: seq<byte>)
    requires ReadTask(s).Some?
    ensures WriteTask(ReadTask(s).value.0) + ReadTask(s).value.1 == s
  {
    var (a, s1) := ReadDouble(s).value;
    var (b, s2) := ReadDouble(s1).value;
    var (h, s3) := ReadDouble(s2).value;
    var (mt, s4) := ReadU8(s3).value;
    var (index, s5) := ReadU32(s4).value;
    var (count, s6) := ReadU32(s5).value;
    var m := TaskMsg(a, b, h, mt, index, count);
    assert ReadTask(s) == Some((m, s6));
    assert s == WriteDouble(a) + s1 by { WriteReadDouble(s); }
    assert s1 == WriteDouble(b) + s2 by { WriteReadDouble(s1); }
    assert s2 == WriteDouble(h) + s3 by { WriteReadDouble(s2); }
    assert s3 == WriteU8(mt) + s4 by { WriteReadU8(s3); }
    assert s4 == WriteU32(index) + s5 by { WriteReadU32(s4); }
    assert s5 == WriteU32(count) + s6 by { WriteReadU32(s5); }
    Regroup6(WriteDouble(a), WriteDouble(b), WriteDouble(h), WriteU8(mt), WriteU32(index), WriteU32(count), s6);
  }

  lemma {:induction false} ResultReadExact(s: seq<byte>)
    requires ReadResult(s).Some?
    ensures WriteResult(ReadResult(s).value.0) + ReadResult(s).value.1 == s
  {
    WriteReadDouble(s);
  }

  lemma {:induction false} UnitsReadExact(s: seq<byte>, n: nat)
    requires ReadUnits(s, n).Some?
    ensures WriteUnits(ReadUnits(s, n).value.0) + ReadUnits(s, n).value.1 == s
  {
    if n > 0 {
      var (u, s1) := ReadU16(s).value;
      WriteReadU16(s);
      UnitsReadExact(s1, n - 1);
      var us := ReadUnits(s1, n - 1).value.0;
      assert ([u] + us)[1..] == us;
    }
  }

  lemma {:induction false} ErrorReadExact(s: seq<byte>)
    requires ReadError(s).Some?
    ensures |ReadError(s).value.0.text| < MaxTextUnits
    ensures WriteError(ReadError(s).value.0) + ReadError(s).value.1 == s
  {
    var (bytes, s1) := ReadU32(s).value;
    WriteReadU32(s);
    UnitsReadExact(s1, bytes / 2);
  }
}
