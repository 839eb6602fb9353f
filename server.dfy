/** The coordinator of src/server/server_main.cpp: it accepts clients, waits for
    a Hello from each, splits [a, b] among them in proportion to their core
    counts, and adds up their partial results once. Sockets become an outbox of
    payloads; the doubles it computes with are exact reals, rounded to wire
    doubles by the Ieee754 parameter where a task message is built. */
module Server {
  import opened DataStream
  import opened Protocol
  import opened MessageIO

  /** Per-client bookkeeping. The FramedSocket pointer is the index into the
      client vector, which never changes once assigned. */
  datatype ClientState = ClientState(cores: u32, helloReceived: bool, resultReceived: bool, result: real)

  const NewClient := ClientState(0, false, false, 0.0)

  /** A task handed to the framed socket of one client; the payload bytes
      that go out are SerializeTask(task). */
  datatype Outgoing = Outgoing(client: nat, task: TaskMsg)

  /** parseMethod: 1, 2 and 3 name the three rules; anything else means Simpson. */
  function ParseMethod(v: int): (m: u8)
    ensures m in {MidpointRectangles, Trapezoids, Simpson}
    ensures 1 <= v <= 3 ==> m == v
    ensures !(1 <= v <= 3) ==> m == Simpson
  {
    match v
    case 1 => MidpointRectangles
    case 2 => Trapezoids
    case 3 => Simpson
    case _ => Simpson
  }

  /** The share a client asks for: its core count, but at least 1. The
      partition computes with it as a double, which holds it exactly. */
  function Weight(c: ClientState): (w: real)
    ensures w >= 1.0 && w >= c.cores as real
  {
    if c.cores < 1 then 1.0 else c.cores as real
  }

  function TotalCores(cs: seq<ClientState>): (t: real)
    ensures t >= |cs| as real
  {
    if cs == [] then 0.0 else TotalCores(cs[..|cs| - 1]) + Weight(cs[|cs| - 1])
  }

  /** The quint64 total cannot wrap: each weight is at most the largest
      quint32, so |cs| weights sum to at most |cs| * (2^32 - 1), below 2^64
      for any count an i32 expectedClients allows. */
  lemma {:induction false} TotalCoresFits(cs: seq<ClientState>)
    ensures TotalCores(cs) <= |cs| as real * 4294967295.0
    ensures |cs| < 0x8000_0000 ==> TotalCores(cs) < 18446744073709551616.0
  {
    if cs != [] {
      TotalCoresFits(cs[..|cs| - 1]);
      assert Weight(cs[|cs| - 1]) <= 4294967295.0;
    }
  }

  /** Client i's fraction of all cores. */
  function Frac(cs: seq<ClientState>, i: nat): real
    requires i < |cs|
  {
    Weight(cs[i]) / TotalCores(cs)
  }

  /** The fraction of all cores held by clients 0..i-1. */
  function Share(cs: seq<ClientState>, i: nat): real
    requires 0 < |cs| && i <= |cs|
  {
    TotalCores(cs[..i]) / TotalCores(cs)
  }

  /** The point a fraction r of the way from a to b. */
  function Lerp(a: real, b: real, r: real): real
  {
    a + (b - a) * r
  }

  /** The i-th cut point of the proportional partition of [a, b]: the start of
      piece i, and b itself after the last piece. */
  function Cut(a: real, b: real, cs: seq<ClientState>, i: nat): real
    requires i <= |cs|
  {
    if i == |cs| then b else Lerp(a, b, Share(cs, i))
  }

  /** The cut points as maybeDispatchTasks computes them: a running cursor
      that starts at a and advances by (b - a) times each client's fraction,
      except that the last piece ends at b. */
  function CursorAt(a: real, b: real, cs: seq<ClientState>, i: nat): real
    requires i <= |cs|
  {
    if i == |cs| then b
    else if i == 0 then a
    else CursorAt(a, b, cs, i - 1) + (b - a) * (Weight(cs[i - 1]) / TotalCores(cs))
  }

  /** Every client has said Hello and exactly the expected number are connected. */
  predicate ReadyToDispatch(cs: seq<ClientState>, expected: int)
  {
    expected > 0 && |cs| == expected && forall i :: 0 <= i < |cs| ==> cs[i].helloReceived
  }

  predicate AllReported(cs: seq<ClientState>)
  {
    forall i :: 0 <= i < |cs| ==> cs[i].resultReceived
  }

  function SumResults(cs: seq<ClientState>): real
  {
    if cs == [] then 0.0 else SumResults(cs[..|cs| - 1]) + cs[|cs| - 1].result
  }

  /** The task sent to client i. */
  function TaskFor(a: real, b: real, h: real, m: u8, cs: seq<ClientState>, ieee: Ieee754, i: nat): TaskMsg
    requires i < |cs| < 0x1_0000_0000
  {
    TaskMsg(ieee.fromReal(CursorAt(a, b, cs, i)), ieee.fromReal(CursorAt(a, b, cs, i + 1)),
            ieee.fromReal(h), m, i, |cs|)
  }

  /** The first k task sends of a dispatch. */
  function Dispatch(a: real, b: real, h: real, m: u8, cs: seq<ClientState>, ieee: Ieee754, k: nat): (d: seq<Outgoing>)
    requires k <= |cs| < 0x1_0000_0000
    ensures |d| == k && forall i :: 0 <= i < k ==> d[i].client == i
  {
    if k == 0 then []
    else Dispatch(a, b, h, m, cs, ieee, k - 1) + [Outgoing(k - 1, TaskFor(a, b, h, m, cs, ieee, k - 1))]
  }

  class ServerApp {
    const ieee: Ieee754
    var clients: seq<ClientState>
    var expectedClients: i32
    var a: real
    var b: real
    var h: real
    var methodType: u8
    var dispatched: bool
    var finished: bool
    /** Every payload sent, in order, with the index of its client. */
    var outbox: seq<Outgoing>
    /** The reduced value, each time one is reported. */
    var finals: seq<real>

    /** Tasks go out at most once and results are reduced at most once, only
        after the tasks went out, and then to the expected number of clients. */
    predicate Valid()
      reads this
    {
      && |finals| <= 1
      && (finished <==> |finals| == 1)
      && (finished ==> dispatched)
      && (!dispatched ==> outbox == [])
      && (dispatched ==> 0 < expectedClients <= |clients| && |outbox| == expectedClients as int)
      && (forall i :: 0 <= i < |outbox| ==> outbox[i].client == i)
    }

    constructor (ieee: Ieee754)
      ensures Valid()
      ensures this.ieee == ieee && clients == [] && expectedClients == 0
      ensures a == 2.0 && b == 10.0 && h == 0.0001 && methodType == Simpson
      ensures !dispatched && !finished && outbox == [] && finals == []
    {
      this.ieee := ieee;
      clients := [];
      expectedClients := 0;
      a, b, h := 2.0, 10.0, 0.0001;
      methodType := Simpson;
      dispatched, finished := false, false;
      outbox, finals := [], [];
    }

    /** start: records the expected client count; whether listening succeeded is
        up to the network and is passed in. */
    method Start(expected: i32, listenOk: bool) returns (ok: bool)
      requires Valid() && !dispatched
      modifies this`expectedClients
      ensures Valid() && expectedClients == expected && ok == listenOk
    {
      expectedClients := expected;
      ok := listenOk;
    }

    /** setTask: replaces the interval, the step and the method of the task
        still to be dispatched; the invariant does not depend on them. */
    method SetTask(a: real, b: real, h: real, m: u8)
      requires Valid()
      modifies this`a, this`b, this`h, this`methodType
      ensures Valid()
      ensures this.a == a && this.b == b && this.h == h && methodType == m
    {
      this.a, this.b, this.h, methodType := a, b, h, m;
    }

    /** onNewConnection: each pending connection gets a fresh client state at
        the end of the vector; the count is not capped. */
    method OnNewConnection(pending: nat)
      requires Valid()
      modifies this`clients
      ensures Valid()
      ensures |clients| == |old(clients)| + pending
      ensures clients[..|old(clients)|] == old(clients)
      ensures forall i :: |old(clients)| <= i < |clients| ==> clients[i] == NewClient
    {
      var k := 0;
      while k < pending
        invariant 0 <= k <= pending
        invariant |clients| == |old(clients)| + k
        invariant clients[..|old(clients)|] == old(clients)
        invariant forall i :: |old(clients)| <= i < |clients| ==> clients[i] == NewClient
      {
        clients := clients + [NewClient];
        k := k + 1;
      }
    }

    /** The first loop of maybeDispatchTasks: does every client have a Hello? */
    static method EveryoneSaidHello(cs: seq<ClientState>) returns (all: bool)
      ensures all <==> forall i :: 0 <= i < |cs| ==> cs[i].helloReceived
    {
      var j := 0;
      while j < |cs|
        invariant 0 <= j <= |cs|
        invariant forall i :: 0 <= i < j ==> cs[i].helloReceived
      {
        if !cs[j].helloReceived {
          return false;
        }
        j := j + 1;
      }
      return true;
    }

    /** The second loop of maybeDispatchTasks: the total of max(1, cores). */
    static method SumCoreWeights(cs: seq<ClientState>) returns (total: real)
      ensures total == TotalCores(cs)
    {
      total := 0.0;
      var j := 0;
      while j < |cs|
        invariant 0 <= j <= |cs|
        invariant total == TotalCores(cs[..j])
      {
        assert cs[..j + 1][..j] == cs[..j];
        total := total + Weight(cs[j]);
        j := j + 1;
      }
      assert cs[..|cs|] == cs;
    }

    /** The partition loop of maybeDispatchTasks: a running cursor walks from
        a to b, piece i taking its cores' share of the length, and the last
        piece ending exactly at b. */
    static method PartitionTasks(cs: seq<ClientState>, lo: real, hi: real, h: real, m: u8, ieee: Ieee754)
      returns (sends: seq<Outgoing>)
      requires 0 < |cs| < 0x1_0000_0000
      ensures sends == Dispatch(lo, hi, h, m, cs, ieee, |cs|)
    {
      var n := |cs|;
      var totalCores := SumCoreWeights(cs);
      var len := hi - lo;
      var cursor := lo;
      sends := [];
      var i := 0;
      while i < n
        invariant 0 <= i <= n
        invariant cursor == CursorAt(lo, hi, cs, i)
        invariant sends == Dispatch(lo, hi, h, m, cs, ieee, i)
      {
        var cores := Weight(cs[i]);
        var frac := cores / totalCores;
        var partLen := len * frac;
        var aPart := cursor;
        var bPart := if i + 1 == n then hi else cursor + partLen;
        CursorNext(lo, hi, cs, i, cursor, len, totalCores);
        cursor := bPart;
        var t := TaskMsg(ieee.fromReal(aPart), ieee.fromReal(bPart), ieee.fromReal(h), m, i, n);
        sends := sends + [Outgoing(i, t)];
        i := i + 1;
      }
    }

    /** maybeDispatchTasks: once every expected client has said Hello, send
        client i the task for piece i of the partition, then never again. */
    method MaybeDispatchTasks()
      requires Valid()
      modifies this`dispatched, this`outbox
      ensures Valid()
      ensures var go := !old(dispatched) && ReadyToDispatch(clients, expectedClients as int);
              && dispatched == (old(dispatched) || go)
              && outbox == old(outbox)
                           + (if go then Dispatch(a, b, h, methodType, clients, ieee, |clients|) else [])
    {
      if dispatched {
        return;
      }
      if expectedClients <= 0 {
        return;
      }
      if |clients| != expectedClients as int {
        return;
      }
      var ready := EveryoneSaidHello(clients);
      if !ready {
        return;
      }
      var sends := PartitionTasks(clients, a, b, h, methodType, ieee);
      outbox := outbox + sends;
      dispatched := true;
    }

    /** maybeFinalize: once tasks are out and every client has reported, the
        sum of their results is reported, and never again. */
    method MaybeFinalize()
      requires Valid()
      modifies this`finished, this`finals
      ensures Valid()
      ensures var go := old(dispatched) && !old(finished) && AllReported(clients);
              && finished == (old(finished) || go)
              && finals == old(finals) + (if go then [SumResults(clients)] else [])
    {
      if !dispatched || finished {
        return;
      }
      var j := 0;
      while j < |clients|
        invariant 0 <= j <= |clients|
        invariant forall i :: 0 <= i < j ==> clients[i].resultReceived
      {
        if !clients[j].resultReceived {
          return;
        }
        j := j + 1;
      }
      var sum := 0.0;
      j := 0;
      while j < |clients|
        invariant 0 <= j <= |clients|
        invariant sum == SumResults(clients[..j])
      {
        assert clients[..j + 1][..j] == clients[..j];
        sum := sum + clients[j].result;
        j := j + 1;
      }
      assert clients[..|clients|] == clients;
      finished := true;
      finals := finals + [sum];
    }

    /** onFrame: a payload from client idx. Unparseable payloads and message
        kinds a client should not send change nothing. A Hello records the
        core count (a later Hello wins) and may trigger dispatch; a Result
        records its value and an Error records 0, and either may trigger the
        reduction. */
    method OnFrame(idx: nat, payload: seq<byte>)
      requires Valid() && idx < |clients|
      modifies this`clients, this`dispatched, this`outbox, this`finished, this`finals
      ensures Valid()
      ensures var pm := ParseMessage(payload);
              var c := old(clients)[idx];
              && (!pm.ok || pm.env.msgType !in {MsgHello, MsgResult, MsgError} ==>
                    clients == old(clients) && dispatched == old(dispatched) && outbox == old(outbox)
                    && finished == old(finished) && finals == old(finals))
              && (pm.ok && pm.env.msgType == MsgHello ==>
                    var go := !old(dispatched) && ReadyToDispatch(clients, expectedClients as int);
                    && clients == old(clients)[idx := c.(helloReceived := true, cores := pm.hello.cores)]
                    && dispatched == (old(dispatched) || go)
                    && outbox == old(outbox)
                                 + (if go then Dispatch(a, b, h, methodType, clients, ieee, |clients|) else [])
                    && finished == old(finished) && finals == old(finals))
              && (pm.ok && pm.env.msgType in {MsgResult, MsgError} ==>
                    var v := if pm.env.msgType == MsgResult then ieee.toReal(pm.result.value) else 0.0;
                    var go := old(dispatched) && !old(finished) && AllReported(clients);
                    && clients == old(clients)[idx := c.(resultReceived := true, result := v)]
                    && dispatched == old(dispatched) && outbox == old(outbox)
                    && finished == (old(finished) || go)
                    && finals == old(finals) + (if go then [SumResults(clients)] else []))
    {
      var pm := ParseMessage(payload);
      if !pm.ok {
        return;
      }
      var c := clients[idx];
      if pm.env.msgType == MsgHello {
        clients := clients[idx := c.(helloReceived := true, cores := pm.hello.cores)];
        MaybeDispatchTasks();
        return;
      }
      if pm.env.msgType == MsgResult {
        clients := clients[idx := c.(resultReceived := true, result := ieee.toReal(pm.result.value))];
        MaybeFinalize();
        return;
      }
      if pm.env.msgType == MsgError {
        clients := clients[idx := c.(resultReceived := true, result := 0.0)];
        MaybeFinalize();
        return;
      }
    }
  }

  // ------------------------------------------------------------ the partition

  lemma {:induction false} TotalCoresStep(cs: seq<ClientState>, i: nat)
    requires i < |cs|
    ensures TotalCores(cs[..i + 1]) == TotalCores(cs[..i]) + Weight(cs[i])
  {
    assert cs[..i + 1][..i] == cs[..i];
  }

  lemma DivAdd(p: real, w: real, t: real, q: real)
    requires t > 0.0 && q == p + w
    ensures p / t + w / t == q / t
  {
  }

  /** Moving from client i to client i+1 adds client i's fraction. */
  lemma ShareNext(cs: seq<ClientState>, i: nat)
    requires i < |cs|
    ensures Share(cs, i + 1) == Share(cs, i) + Frac(cs, i)
  {
    TotalCoresStep(cs, i);
    DivAdd(TotalCores(cs[..i]), Weight(cs[i]), TotalCores(cs), TotalCores(cs[..i + 1]));
  }

  lemma ShareEnds(cs: seq<ClientState>)
    requires 0 < |cs|
    ensures Share(cs, 0) == 0.0 && Share(cs, |cs|) == 1.0
  {
    assert cs[..0] == [];
    assert cs[..|cs|] == cs;
    var t := TotalCores(cs);
    assert t >= 1.0;
    assert TotalCores(cs[..0]) / t == 0.0;
    assert TotalCores(cs[..|cs|]) / t == t / t == 1.0;
  }

  lemma Advance(a: real, b: real, s0: real, s1: real, d: real)
    requires s1 == s0 + d
    ensures Lerp(a, b, s0) + (b - a) * d == Lerp(a, b, s1)
  {
  }

  /** The running cursor plus piece i's share lands on the next cut point. */
  lemma CutStep(a: real, b: real, cs: seq<ClientState>, i: nat)
    requires i + 1 < |cs|
    ensures Cut(a, b, cs, i) + (b - a) * Frac(cs, i) == Cut(a, b, cs, i + 1)
  {
    ShareNext(cs, i);
    Advance(a, b, Share(cs, i), Share(cs, i + 1), Frac(cs, i));
  }

  /** One step of the dispatch loop's cursor. */
  lemma CursorNext(a: real, b: real, cs: seq<ClientState>, i: nat, cursor: real, len: real, total: real)
    requires i < |cs| && cursor == CursorAt(a, b, cs, i) && len == b - a && total == TotalCores(cs)
    ensures (if i + 1 == |cs| then b else cursor + len * (Weight(cs[i]) / total)) == CursorAt(a, b, cs, i + 1)
  {
  }

  /** The running cursor is the closed-form cut point. */
  lemma {:induction false} CursorIsCut(a: real, b: real, cs: seq<ClientState>, i: nat)
    requires i <= |cs|
    ensures CursorAt(a, b, cs, i) == Cut(a, b, cs, i)
  {
    if i == 0 {
      if |cs| > 0 {
        CutEnds(a, b, cs);
      }
    } else if i < |cs| {
      CursorIsCut(a, b, cs, i - 1);
      CursorStep(a, b, cs, i);
    }
  }

  /** The inductive step of CursorIsCut: an interior cursor that agreed with
      the previous cut point agrees with the next one. */
  lemma CursorStep(a: real, b: real, cs: seq<ClientState>, i: nat)
    requires 0 < i < |cs| && CursorAt(a, b, cs, i - 1) == Cut(a, b, cs, i - 1)
    ensures CursorAt(a, b, cs, i) == Cut(a, b, cs, i)
  {
    CursorUnfold(a, b, cs, i);
    CutStep(a, b, cs, i - 1);
    SameStep(CursorAt(a, b, cs, i - 1), Cut(a, b, cs, i - 1), (b - a) * Frac(cs, i - 1),
             CursorAt(a, b, cs, i), Cut(a, b, cs, i));
  }

  lemma CursorUnfold(a: real, b: real, cs: seq<ClientState>, i: nat)
    requires 0 < i < |cs|
    ensures CursorAt(a, b, cs, i) == CursorAt(a, b, cs, i - 1) + (b - a) * Frac(cs, i - 1)
  {
  }

  lemma SameStep(x0: real, y0: real, d: real, x1: real, y1: real)
    requires x0 == y0 && x1 == x0 + d && y1 == y0 + d
    ensures x1 == y1
  {
  }

  /** The partition starts at a and ends at b. */
  lemma CutEnds(a: real, b: real, cs: seq<ClientState>)
    requires |cs| > 0
    ensures Cut(a, b, cs, 0) == a
    ensures Cut(a, b, cs, |cs|) == b
  {
    ShareEnds(cs);
  }

  /** Piece i, the last one included, is (b - a) times its client's share. */
  lemma PieceLength(a: real, b: real, cs: seq<ClientState>, i: nat)
    requires i < |cs|
    ensures Cut(a, b, cs, i + 1) - Cut(a, b, cs, i) == (b - a) * Frac(cs, i)
  {
    if i + 1 < |cs| {
      CutStep(a, b, cs, i);
    } else {
      ShareEnds(cs);
      ShareNext(cs, i);
      Advance(a, b, Share(cs, i), Share(cs, i + 1), Frac(cs, i));
      assert Lerp(a, b, 1.0) == b;
    }
  }

  /** The sum of the lengths of pieces 0..k-1. */
  function CoveredLength(a: real, b: real, cs: seq<ClientState>, k: nat): real
    requires k <= |cs|
  {
    if k == 0 then 0.0 else CoveredLength(a, b, cs, k - 1) + (Cut(a, b, cs, k) - Cut(a, b, cs, k - 1))
  }

  /** The pieces telescope: together they are exactly b - a long. */
  lemma {:induction false} PiecesSumToInterval(a: real, b: real, cs: seq<ClientState>, k: nat)
    requires 0 < |cs| && k <= |cs|
    ensures CoveredLength(a, b, cs, k) == Cut(a, b, cs, k) - a
    ensures k == |cs| ==> CoveredLength(a, b, cs, k) == b - a
  {
    CutEnds(a, b, cs);
    if k > 0 {
      PiecesSumToInterval(a, b, cs, k - 1);
    }
  }

  lemma NonNegProduct(x: real, y: real)
    requires x >= 0.0 && y >= 0.0
    ensures x * y >= 0.0
  {
  }

  lemma Between(a: real, b: real, r: real)
    requires 0.0 <= r <= 1.0
    ensures (if a <= b then a else b) <= Lerp(a, b, r) <= (if a <= b then b else a)
  {
    if a <= b {
      NonNegProduct(b - a, r);
      NonNegProduct(b - a, 1.0 - r);
      assert (b - a) * (1.0 - r) == (b - a) - (b - a) * r;
    } else {
      NonNegProduct(a - b, r);
      NonNegProduct(a - b, 1.0 - r);
      assert (a - b) * r == -((b - a) * r);
      assert (a - b) * (1.0 - r) == (a - b) - (a - b) * r;
    }
  }

  lemma FracBounds(p: real, t: real)
    requires 0.0 <= p <= t && t > 0.0
    ensures 0.0 <= p / t <= 1.0
  {
    assert p / t * t == p;
  }

  lemma {:induction false} PrefixCoresBounded(cs: seq<ClientState>, i: nat)
    requires i <= |cs|
    ensures 0.0 <= TotalCores(cs[..i]) <= TotalCores(cs)
    decreases |cs| - i
  {
    if i < |cs| {
      TotalCoresStep(cs, i);
      PrefixCoresBounded(cs, i + 1);
    } else {
      assert cs[..i] == cs;
    }
  }

  /** Every cut point lies between a and b, so a piece of an interval that
      avoids x = 1 avoids it too. */
  lemma CutWithin(a: real, b: real, cs: seq<ClientState>, i: nat)
    requires i <= |cs|
    ensures (if a <= b then a else b) <= Cut(a, b, cs, i) <= (if a <= b then b else a)
  {
    if i < |cs| {
      PrefixCoresBounded(cs, i);
      FracBounds(TotalCores(cs[..i]), TotalCores(cs));
      Between(a, b, Share(cs, i));
    }
  }

  // --------------------------------------------------------- the task payloads

  lemma {:induction false} DispatchElement(a: real, b: real, h: real, m: u8, cs: seq<ClientState>,
                                           ieee: Ieee754, k: nat, i: nat)
    requires i < k <= |cs| < 0x1_0000_0000
    ensures Dispatch(a, b, h, m, cs, ieee, k)[i] == Outgoing(i, TaskFor(a, b, h, m, cs, ieee, i))
  {
    if i < k - 1 {
      DispatchElement(a, b, h, m, cs, ieee, k - 1, i);
    }
  }

  /** Task i covers piece i of the partition and carries the global step and
      method, its own index and the client count. */
  lemma TaskContents(a: real, b: real, h: real, m: u8, cs: seq<ClientState>, ieee: Ieee754, i: nat)
    requires i < |cs| < 0x1_0000_0000
    ensures var t := Dispatch(a, b, h, m, cs, ieee, |cs|)[i].task;
            && t.a == ieee.fromReal(Cut(a, b, cs, i))
            && t.b == ieee.fromReal(Cut(a, b, cs, i + 1))
            && t.h == ieee.fromReal(h) && t.methodType == m
            && t.clientIndex == i && t.clientCount == |cs|
  {
    DispatchElement(a, b, h, m, cs, ieee, |cs|, i);
    CursorIsCut(a, b, cs, i);
    CursorIsCut(a, b, cs, i + 1);
  }

  /** What goes on the wire for task i parses back to that task. */
  lemma TaskOnTheWire(a: real, b: real, h: real, m: u8, cs: seq<ClientState>, ieee: Ieee754, i: nat)
    requires i < |cs| < 0x1_0000_0000
    ensures var o := Dispatch(a, b, h, m, cs, ieee, |cs|)[i];
            var pm := ParseMessage(SerializeTask(o.task));
            pm.ok && pm.env.msgType == MsgTask && pm.task == o.task
  {
    var o := Dispatch(a, b, h, m, cs, ieee, |cs|)[i];
    ParseTask(o.task, []);
    assert SerializeTask(o.task) + [] == SerializeTask(o.task);
  }

  /** Consecutive tasks share their end point: piece i ends where piece i+1
      starts, and the last one ends at b. */
  lemma TasksContiguous(a: real, b: real, h: real, m: u8, cs: seq<ClientState>, ieee: Ieee754, i: nat)
    requires i + 1 < |cs| < 0x1_0000_0000
    ensures TaskFor(a, b, h, m, cs, ieee, i).b == TaskFor(a, b, h, m, cs, ieee, i + 1).a
    ensures TaskFor(a, b, h, m, cs, ieee, |cs| - 1).b == ieee.fromReal(b)
    ensures TaskFor(a, b, h, m, cs, ieee, 0).a == ieee.fromReal(a)
  {
    CutEnds(a, b, cs);
  }
}
