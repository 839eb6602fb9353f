/** The worker of src/client/client_main.cpp: it connects to the coordinator,
    advertises its thread count in a Hello, and answers each Task with exactly
    one Result or Error computed over equal chunks of the task's interval.
    The threads that integrate the chunks are a sequential fold in chunk
    order; sends become an outbox of messages; doubles are exact reals, read
    from and rounded to wire doubles by the Ieee754 parameter. */
module Client {
  import opened DataStream
  import opened Protocol
  import opened MessageIO
  import opened Integrator

  /** A message handed to the framed socket; the payload bytes are Payload(o). */
  datatype Outbound = SendHello(hello: HelloMsg) | SendResult(result: ResultMsg) | SendError(error: ErrorMsg)

  /** What fits the u32 byte count of the wire format. */
  predicate Sendable(o: Outbound)
  {
    o.SendError? ==> |o.error.text| < MaxTextUnits
  }

  function Payload(o: Outbound): seq<byte>
    requires Sendable(o)
  {
    match o
    case SendHello(m) => SerializeHello(m)
    case SendResult(m) => SerializeResult(m)
    case SendError(m) => SerializeError(m)
  }

  /** max(1, idealThreadCount): the number of chunks, and the cores a Hello
      advertises. */
  function Workers(ideal: i32): (p: nat)
    ensures 1 <= p < 0x8000_0000
    ensures ideal >= 1 ==> p == ideal
    ensures ideal < 1 ==> p == 1
  {
    if ideal < 1 then 1 else ideal
  }

  // ------------------------------------------------------- host validation

  /** QChar::isSpace: the Unicode separators plus tab, line feed, vertical
      tab, form feed, carriage return and next line. */
  predicate IsSpace(c: char)
  {
    var v := c as int;
    (9 <= v <= 13) || v == 0x20 || v == 0x85 || v == 0xA0 || v == 0x1680
    || (0x2000 <= v <= 0x200A) || v == 0x2028 || v == 0x2029 || v == 0x202F
    || v == 0x205F || v == 0x3000
  }

  function TrimStart(s: string): (r: string)
    ensures |r| <= |s| && r == s[|s| - |r|..]
    ensures r != [] ==> !IsSpace(r[0])
    ensures forall i :: 0 <= i < |s| - |r| ==> IsSpace(s[i])
  {
    if s != [] && IsSpace(s[0]) then TrimStart(s[1..]) else s
  }

  function TrimEnd(s: string): (r: string)
    ensures |r| <= |s| && r == s[..|r|]
    ensures r != [] ==> !IsSpace(r[|r| - 1])
    ensures forall i :: |r| <= i < |s| ==> IsSpace(s[i])
  {
    if s != [] && IsSpace(s[|s| - 1]) then TrimEnd(s[..|s| - 1]) else s
  }

  /** QString::trimmed: whitespace removed from both ends. */
  function Trimmed(s: string): string
  {
    TrimEnd(TrimStart(s))
  }

  /** A host is blank exactly when it is made of whitespace only. */
  lemma BlankIsAllSpace(s: string)
    ensures Trimmed(s) == [] <==> forall i :: 0 <= i < |s| ==> IsSpace(s[i])
  {
    var t := TrimStart(s);
    assert TrimEnd(t) == [] <==> t == [];
  }

  // ------------------------------------------------------------ the chunks

  /** The length of one chunk: (b - a) / P. */
  function Part(a: real, b: real, p: nat): real
    requires p >= 1
  {
    (b - a) / (p as real)
  }

  function ChunkStart(a: real, b: real, p: nat, i: nat): real
    requires p >= 1
  {
    a + (i as real) * Part(a, b, p)
  }

  /** The last chunk ends at b itself; the others one part after their start. */
  function ChunkEnd(a: real, b: real, p: nat, i: nat): real
    requires p >= 1
  {
    if i + 1 == p then b else ChunkStart(a, b, p, i) + Part(a, b, p)
  }

  lemma PartTimesCount(a: real, b: real, p: nat)
    requires p >= 1
    ensures (p as real) * Part(a, b, p) == b - a
  {
  }

  lemma NextMultiple(x: real, part: real)
    ensures (x + 1.0) * part == x * part + part
  {
  }

  /** The chunks start at a, each one starts where the previous one ends, the
      last ends at b, and all are one part long. */
  lemma ChunkLayout(a: real, b: real, p: nat, i: nat)
    requires p >= 1 && i < p
    ensures ChunkStart(a, b, p, 0) == a
    ensures ChunkEnd(a, b, p, p - 1) == b
    ensures i + 1 < p ==> ChunkEnd(a, b, p, i) == ChunkStart(a, b, p, i + 1)
    ensures ChunkEnd(a, b, p, i) - ChunkStart(a, b, p, i) == Part(a, b, p)
  {
    var part := Part(a, b, p);
    NextMultiple(i as real, part);
    assert (i + 1) as real == i as real + 1.0;
    if i + 1 == p {
      PartTimesCount(a, b, p);
    }
  }

  /** The chunk lengths added up in order. */
  function Covered(a: real, b: real, p: nat, k: nat): real
    requires p >= 1 && k <= p
  {
    if k == 0 then 0.0
    else Covered(a, b, p, k - 1) + (ChunkEnd(a, b, p, k - 1) - ChunkStart(a, b, p, k - 1))
  }

  /** The chunks cover [a, b] with nothing left over. */
  lemma {:induction false} ChunksCover(a: real, b: real, p: nat, k: nat)
    requires p >= 1 && 1 <= k <= p
    ensures Covered(a, b, p, k) == ChunkEnd(a, b, p, k - 1) - a
    ensures k == p ==> Covered(a, b, p, k) == b - a
  {
    ChunkLayout(a, b, p, k - 1);
    if k > 1 {
      ChunksCover(a, b, p, k - 1);
      ChunkLayout(a, b, p, k - 2);
    }
  }

  lemma Scaled(x: real, n: real, part: real)
    requires 0.0 <= x <= n
    ensures part >= 0.0 ==> 0.0 <= x * part <= n * part
    ensures part < 0.0 ==> n * part <= x * part <= 0.0
  {
    if part >= 0.0 {
      assert (n - x) * part >= 0.0;
    } else {
      assert (n - x) * (-part) >= 0.0;
    }
  }

  /** Chunk i starts between a and its own end: walking the chunks in order
      never turns back. */
  lemma ChunkMonotone(a: real, b: real, p: nat, i: nat)
    requires p >= 1 && i < p
    ensures Min(a, ChunkEnd(a, b, p, i)) <= ChunkStart(a, b, p, i) <= Max(a, ChunkEnd(a, b, p, i))
  {
    var part := Part(a, b, p);
    ChunkLayout(a, b, p, i);
    Scaled(i as real, i as real + 1.0, part);
    NextMultiple(i as real, part);
  }

  /** Every chunk end point lies between a and b. */
  lemma ChunkWithin(a: real, b: real, p: nat, i: nat)
    requires p >= 1 && i < p
    ensures Min(a, b) <= ChunkStart(a, b, p, i) <= Max(a, b)
    ensures Min(a, b) <= ChunkEnd(a, b, p, i) <= Max(a, b)
  {
    var part := Part(a, b, p);
    PartTimesCount(a, b, p);
    Scaled(i as real, p as real, part);
    ChunkLayout(a, b, p, i);
    if i + 1 < p {
      Scaled((i + 1) as real, p as real, part);
    }
  }

  lemma Split(a: real, m: real, c: real, t: real)
    requires Min(a, c) <= m <= Max(a, c) && Min(a, c) <= t <= Max(a, c)
    ensures (Min(a, m) <= t <= Max(a, m)) || (Min(m, c) <= t <= Max(m, c))
  {
  }

  /** If x = 1 lies between a and the end of chunk k, one of the chunks up to
      k holds it. */
  lemma {:induction false} SomeChunkHoldsOne(a: real, b: real, p: nat, k: nat)
    requires p >= 1 && k < p && ContainsSingularity(a, ChunkEnd(a, b, p, k))
    ensures exists i :: 0 <= i <= k && ContainsSingularity(ChunkStart(a, b, p, i), ChunkEnd(a, b, p, i))
  {
    ChunkLayout(a, b, p, k);
    if !ContainsSingularity(ChunkStart(a, b, p, k), ChunkEnd(a, b, p, k)) {
      ChunkMonotone(a, b, p, k);
      Split(a, ChunkStart(a, b, p, k), ChunkEnd(a, b, p, k), 1.0);
      assert k > 0;
      ChunkLayout(a, b, p, k - 1);
      SomeChunkHoldsOne(a, b, p, k - 1);
    }
  }

  // ------------------------------------------------------------- the fold

  /** integrateChunk on chunk i of the task. */
  function ChunkIntegral(f: real -> real, a: real, b: real, h: real, m: u8, p: nat, i: nat): Result<real, string>
    requires p >= 1
  {
    Integral(f, ChunkStart(a, b, p, i), ChunkEnd(a, b, p, i), h, m)
  }

  /** Waiting on the chunk results in index order: the first chunk that threw
      ends the wait with its message; otherwise the values are added up,
      starting from 0. */
  function LocalResult(f: real -> real, a: real, b: real, h: real, m: u8, p: nat, k: nat): Result<real, string>
    requires p >= 1
  {
    if k == 0 then Ok(0.0)
    else
      match LocalResult(f, a, b, h, m, p, k - 1)
      case Err(e) => Err(e)
      case Ok(s) =>
        match ChunkIntegral(f, a, b, h, m, p, k - 1)
        case Err(e) => Err(e)
        case Ok(v) => Ok(s + v)
  }

  /** The fold fails exactly when some chunk fails, and then with the message
      of the first chunk that failed. */
  lemma {:induction false} FirstFailureWins(f: real -> real, a: real, b: real, h: real, m: u8, p: nat, k: nat)
    requires p >= 1
    ensures LocalResult(f, a, b, h, m, p, k).Err?
            <==> exists i :: 0 <= i < k && ChunkIntegral(f, a, b, h, m, p, i).Err?
    ensures LocalResult(f, a, b, h, m, p, k).Err? ==>
              exists i :: 0 <= i < k && ChunkIntegral(f, a, b, h, m, p, i) == LocalResult(f, a, b, h, m, p, k)
                          && forall j :: 0 <= j < i ==> ChunkIntegral(f, a, b, h, m, p, j).Ok?
  {
    if k > 0 {
      FirstFailureWins(f, a, b, h, m, p, k - 1);
    }
  }

  /** Once a chunk has failed, later chunks do not change the outcome. */
  lemma {:induction false} FailureSticks(f: real -> real, a: real, b: real, h: real, m: u8, p: nat, j: nat, k: nat)
    requires p >= 1 && j <= k && LocalResult(f, a, b, h, m, p, j).Err?
    ensures LocalResult(f, a, b, h, m, p, k) == LocalResult(f, a, b, h, m, p, j)
  {
    if j < k {
      FailureSticks(f, a, b, h, m, p, j, k - 1);
    }
  }

  /** With a non-positive step the in-order fold ends in the step error: the
      first chunk already throws it. */
  lemma StepErrorReported(f: real -> real, a: real, b: real, h: real, m: u8, p: nat)
    requires p >= 1 && !(h > 0.0)
    ensures LocalResult(f, a, b, h, m, p, p) == Err(StepError)
  {
    assert LocalResult(f, a, b, h, m, p, 1) == Err(StepError);
    FailureSticks(f, a, b, h, m, p, 1, p);
  }

  /** A positive step, a known method and an interval that stays clear of
      x = 1 give a value for every chunk, and so for the task. */
  lemma {:induction false} CleanTaskSucceeds(f: real -> real, a: real, b: real, h: real, m: u8, p: nat, k: nat)
    requires p >= 1 && k <= p && h > 0.0 && !ContainsSingularity(a, b)
    requires m in {MidpointRectangles, Trapezoids, Simpson}
    ensures LocalResult(f, a, b, h, m, p, k).Ok?
  {
    if k > 0 {
      CleanTaskSucceeds(f, a, b, h, m, p, k - 1);
      ChunkWithin(a, b, p, k - 1);
      IntegralChecks(f, ChunkStart(a, b, p, k - 1), ChunkEnd(a, b, p, k - 1), h, m);
    }
  }

  /** With a positive step and a known method, a chunk of non-zero length
      either has a value or fails because it holds x = 1. */
  lemma ChunkOutcome(f: real -> real, a: real, b: real, h: real, m: u8, p: nat, i: nat)
    requires p >= 1 && i < p && h > 0.0 && a != b
    requires m in {MidpointRectangles, Trapezoids, Simpson}
    ensures ChunkIntegral(f, a, b, h, m, p, i).Ok?
            || ChunkIntegral(f, a, b, h, m, p, i) == Err(SingularityError)
    ensures ContainsSingularity(ChunkStart(a, b, p, i), ChunkEnd(a, b, p, i))
            ==> ChunkIntegral(f, a, b, h, m, p, i) == Err(SingularityError)
  {
    ChunkLayout(a, b, p, i);
    PartTimesCount(a, b, p);
    IntegralChecks(f, ChunkStart(a, b, p, i), ChunkEnd(a, b, p, i), h, m);
  }

  /** With a positive step and a known method, the in-order fold over a task
      interval that holds x = 1 ends in the singularity error. */
  lemma SingularityReported(f: real -> real, a: real, b: real, h: real, m: u8, p: nat)
    requires p >= 1 && h > 0.0 && a != b && ContainsSingularity(a, b)
    requires m in {MidpointRectangles, Trapezoids, Simpson}
    ensures LocalResult(f, a, b, h, m, p, p) == Err(SingularityError)
  {
    ChunkLayout(a, b, p, p - 1);
    SomeChunkHoldsOne(a, b, p, p - 1);
    var i :| 0 <= i < p && ContainsSingularity(ChunkStart(a, b, p, i), ChunkEnd(a, b, p, i));
    ChunkOutcome(f, a, b, h, m, p, i);
    FirstFailureWins(f, a, b, h, m, p, p);
    var j :| 0 <= j < p && ChunkIntegral(f, a, b, h, m, p, j) == LocalResult(f, a, b, h, m, p, p);
    ChunkOutcome(f, a, b, h, m, p, j);
  }

  // ------------------------------------------------------------ the reply

  /** The UTF-16 code units of a text: one unit for a character of the basic
      plane, a surrogate pair for any other. */
  function Utf16(s: string): (u: seq<u16>)
    ensures |s| <= |u| <= 2 * |s|
    ensures (forall i :: 0 <= i < |s| ==> s[i] as int < 0x1_0000) ==>
              |u| == |s| && forall i :: 0 <= i < |s| ==> u[i] == s[i] as int
  {
    if s == [] then []
    else
      var v := s[0] as int;
      var first := if v < 0x1_0000 then [v] else [0xD800 + (v - 0x1_0000) / 0x400, 0xDC00 + (v - 0x1_0000) % 0x400];
      first + Utf16(s[1..])
  }

  /** The one message a task is answered with: the sum as a Result, or, when
      some chunk failed, an Error whose text is `what`. The integrator throws
      std::invalid_argument inside a QtConcurrent::run task; QtConcurrent
      stores any exception that is not a QException as a QUnhandledException,
      and f.result() rethrows that wrapper, so the text the catch clause reads
      from e.what() is the wrapper's, not the integrator's message. That text
      comes from the C++ runtime ("std::exception" under libstdc++) and is a
      parameter here. */
  function Reply(ieee: Ieee754, f: real -> real, task: TaskMsg, p: nat, what: string): Outbound
    requires p >= 1
  {
    match LocalResult(f, ieee.toReal(task.a), ieee.toReal(task.b), ieee.toReal(task.h), task.methodType, p, p)
    case Ok(s) => SendResult(ResultMsg(ieee.fromReal(s)))
    case Err(_) => SendError(ErrorMsg(Utf16(what)))
  }

  lemma IntegralErrors(f: real -> real, a: real, b: real, h: real, m: u8)
    ensures Integral(f, a, b, h, m).Err? ==>
              Integral(f, a, b, h, m).error in {StepError, SingularityError, MethodError}
  {
  }

  /** The reply is a Result exactly when every chunk's integral succeeded,
      and then it carries the rounded sum of the chunks' values. */
  lemma ReplySucceeds(ieee: Ieee754, f: real -> real, task: TaskMsg, p: nat, what: string)
    requires p >= 1
    ensures var a, b, h := ieee.toReal(task.a), ieee.toReal(task.b), ieee.toReal(task.h);
            && (Reply(ieee, f, task, p, what).SendResult?
                <==> forall i :: 0 <= i < p ==> ChunkIntegral(f, a, b, h, task.methodType, p, i).Ok?)
            && (Reply(ieee, f, task, p, what).SendResult? ==>
                  Reply(ieee, f, task, p, what).result.value == ieee.fromReal(LocalResult(f, a, b, h, task.methodType, p, p).value))
  {
    FirstFailureWins(f, ieee.toReal(task.a), ieee.toReal(task.b), ieee.toReal(task.h), task.methodType, p, p);
  }

  /** The reply is an Error exactly when some chunk failed, and its text is the
      runtime's what() of the rethrown exception, whichever chunk failed. */
  lemma ReplyReportsFailure(ieee: Ieee754, f: real -> real, task: TaskMsg, p: nat, what: string)
    requires p >= 1
    ensures var a, b, h := ieee.toReal(task.a), ieee.toReal(task.b), ieee.toReal(task.h);
            Reply(ieee, f, task, p, what).SendError?
            <==> exists i :: 0 <= i < p && ChunkIntegral(f, a, b, h, task.methodType, p, i).Err?
    ensures Reply(ieee, f, task, p, what).SendError? ==> Reply(ieee, f, task, p, what).error.text == Utf16(what)
  {
    FirstFailureWins(f, ieee.toReal(task.a), ieee.toReal(task.b), ieee.toReal(task.h), task.methodType, p, p);
  }

  /** A task whose interval holds x = 1, with a positive step and a known
      method, is answered with an Error carrying the runtime's text. */
  lemma SingularityAnswered(ieee: Ieee754, f: real -> real, task: TaskMsg, p: nat, what: string)
    requires p >= 1 && ieee.toReal(task.h) > 0.0 && ieee.toReal(task.a) != ieee.toReal(task.b)
    requires ContainsSingularity(ieee.toReal(task.a), ieee.toReal(task.b))
    requires task.methodType in {MidpointRectangles, Trapezoids, Simpson}
    ensures Reply(ieee, f, task, p, what) == SendError(ErrorMsg(Utf16(what)))
  {
    SingularityReported(f, ieee.toReal(task.a), ieee.toReal(task.b), ieee.toReal(task.h), task.methodType, p);
  }

  /** Every reply fits the wire when the runtime's text does. */
  lemma ReplySendable(ieee: Ieee754, f: real -> real, task: TaskMsg, p: nat, what: string)
    requires p >= 1 && 2 * |what| < MaxTextUnits
    ensures Sendable(Reply(ieee, f, task, p, what))
  {
  }

  /** What goes on the wire parses back to the message that was meant. */
  lemma OnTheWire(o: Outbound)
    requires Sendable(o)
    ensures var pm := ParseMessage(Payload(o));
            && pm.ok
            && (o.SendHello? ==> pm.env.msgType == MsgHello && pm.hello == o.hello)
            && (o.SendResult? ==> pm.env.msgType == MsgResult && pm.result == o.result)
            && (o.SendError? ==> pm.env.msgType == MsgError && pm.error == o.error)
  {
    match o
    case SendHello(m) =>
      ParseHello(m, []);
      assert SerializeHello(m) + [] == SerializeHello(m);
    case SendResult(m) =>
      ParseResult(m, []);
      assert SerializeResult(m) + [] == SerializeResult(m);
    case SendError(m) =>
      ParseError(m, []);
      assert SerializeError(m) + [] == SerializeError(m);
  }

  // ------------------------------------------------------------ the client

  class ClientApp {
    const ieee: Ieee754
    /** The integrand the integrator evaluates. */
    const f: real -> real
    /** QThread::idealThreadCount on this machine. */
    const idealThreadCount: i32
    /** What e.what() gives for the exception f.result() rethrows when a
        chunk failed. */
    const unhandledWhat: string

    /** The host and port connectToHost was called with, if any. */
    var connectingTo: Option<(string, u16)>
    /** Everything handed to the framed socket, in order. */
    var sent: seq<Outbound>
    /** disconnectFromHost was called. */
    var disconnecting: bool
    /** QCoreApplication::quit was called. */
    var quitRequested: bool

    constructor(ieee: Ieee754, f: real -> real, idealThreadCount: i32, unhandledWhat: string)
      ensures this.ieee == ieee && this.f == f && this.idealThreadCount == idealThreadCount
      ensures this.unhandledWhat == unhandledWhat
      ensures connectingTo == None && sent == [] && !disconnecting && !quitRequested
    {
      this.ieee := ieee;
      this.f := f;
      this.idealThreadCount := idealThreadCount;
      this.unhandledWhat := unhandledWhat;
      connectingTo := None;
      sent := [];
      disconnecting := false;
      quitRequested := false;
    }

    /** connectTo: a host of whitespace only, or port 0, quits without trying
        to connect. */
    method ConnectTo(host: string, port: u16)
      modifies this`connectingTo, this`quitRequested
      ensures var refused := (forall i :: 0 <= i < |host| ==> IsSpace(host[i])) || port == 0;
              && connectingTo == (if refused then old(connectingTo) else Some((host, port)))
              && quitRequested == (old(quitRequested) || refused)
    {
      BlankIsAllSpace(host);
      if Trimmed(host) == [] || port == 0 {
        quitRequested := true;
        return;
      }
      connectingTo := Some((host, port));
    }

    /** onConnected: the Hello advertises max(1, idealThreadCount) cores. */
    method OnConnected()
      modifies this`sent
      ensures sent == old(sent) + [SendHello(HelloMsg(Workers(idealThreadCount)))]
      ensures sent[|sent| - 1].hello.cores >= 1
    {
      var cores := Workers(idealThreadCount);
      sent := sent + [SendHello(HelloMsg(cores))];
    }

    /** onFrame: a Task is answered, a server Error quits, and a frame that
        does not parse or has another type is ignored. */
    method OnFrame(payload: seq<byte>)
      modifies this`sent, this`disconnecting, this`quitRequested
      ensures var pm := ParseMessage(payload);
              if pm.ok && pm.env.msgType == MsgTask then
                sent == old(sent) + [Reply(ieee, f, pm.task, Workers(idealThreadCount), unhandledWhat)]
                && disconnecting && quitRequested == old(quitRequested)
              else if pm.ok && pm.env.msgType == MsgError then
                sent == old(sent) && disconnecting == old(disconnecting) && quitRequested
              else
                sent == old(sent) && disconnecting == old(disconnecting) && quitRequested == old(quitRequested)
    {
      var pm := ParseMessage(payload);
      if !pm.ok {
        return;
      }
      if pm.env.msgType == MsgTask {
        ComputeAndSend(pm.task);
        return;
      }
      if pm.env.msgType == MsgError {
        quitRequested := true;
        return;
      }
    }

    /** computeAndSend: P = max(1, idealThreadCount) chunks are integrated,
        their results waited on in order, and exactly one Result or Error is
        sent before the connection is closed. */
    method ComputeAndSend(task: TaskMsg)
      modifies this`sent, this`disconnecting
      ensures sent == old(sent) + [Reply(ieee, f, task, Workers(idealThreadCount), unhandledWhat)]
      ensures disconnecting
    {
      var threads := Workers(idealThreadCount);
      var reply := FoldChunks(ieee, f, task, threads, unhandledWhat);
      sent := sent + [reply];
      disconnecting := true;
    }

    /** The two loops of computeAndSend: one lays out the chunks, one waits on
        them in order and stops at the first that failed. */
    static method FoldChunks(ieee: Ieee754, f: real -> real, task: TaskMsg, threads: nat, what: string)
      returns (reply: Outbound)
      requires threads >= 1
      ensures reply == Reply(ieee, f, task, threads, what)
    {
      var a, b, h := ieee.toReal(task.a), ieee.toReal(task.b), ieee.toReal(task.h);
      var chunks := LayOutChunks(a, b, threads);
      var r := WaitOnChunks(f, a, b, h, task.methodType, threads, chunks);
      match r
      case Ok(sum) =>
        reply := SendResult(ResultMsg(ieee.fromReal(sum)));
      case Err(_) =>
        reply := SendError(ErrorMsg(Utf16(what)));
    }

    /** The first loop: chunk i runs from a + i * part to one part later, and
        the last to b. */
    static method LayOutChunks(a: real, b: real, threads: nat) returns (chunks: seq<(real, real)>)
      requires threads >= 1
      ensures |chunks| == threads
      ensures forall j :: 0 <= j < threads ==> chunks[j] == (ChunkStart(a, b, threads, j), ChunkEnd(a, b, threads, j))
    {
      var len := b - a;
      var part := len / (threads as real);
      chunks := [];
      var i := 0;
      while i < threads
        invariant 0 <= i <= threads && |chunks| == i
        invariant forall j :: 0 <= j < i ==> chunks[j] == (ChunkStart(a, b, threads, j), ChunkEnd(a, b, threads, j))
      {
        var lo := a + (i as real) * part;
        var hi := if i + 1 == threads then b else lo + part;
        assert part == Part(a, b, threads);
        assert lo == ChunkStart(a, b, threads, i);
        assert hi == ChunkEnd(a, b, threads, i);
        chunks := chunks + [(lo, hi)];
        i := i + 1;
      }
    }

    /** The second loop: the results are added up in chunk order until one
        chunk reports a failure, which becomes the outcome. */
    static method WaitOnChunks(f: real -> real, a: real, b: real, h: real, m: u8, threads: nat,
                               chunks: seq<(real, real)>)
      returns (r: Result<real, string>)
      requires threads >= 1 && |chunks| == threads
      requires forall j :: 0 <= j < threads ==> chunks[j] == (ChunkStart(a, b, threads, j), ChunkEnd(a, b, threads, j))
      ensures r == LocalResult(f, a, b, h, m, threads, threads)
    {
      var sum := 0.0;
      var k := 0;
      while k < threads
        invariant 0 <= k <= threads
        invariant LocalResult(f, a, b, h, m, threads, k) == Ok(sum)
      {
        var v := Integrate(f, chunks[k].0, chunks[k].1, h, m);
        assert v == ChunkIntegral(f, a, b, h, m, threads, k);
        if v.Err? {
          FailureSticks(f, a, b, h, m, threads, k + 1, threads);
          return Err(v.error);
        }
        sum := sum + v.value;
        k := k + 1;
      }
      return Ok(sum);
    }
  }
}
