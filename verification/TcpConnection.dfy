/** The output path of a connection: partial writes, write interest and the deferred FIN, in the loop's own thread. */
module TcpConnections {
  import opened Bytes
  import opened Buffers

  datatype State = Disconnected | Connecting | Connected | Disconnecting

  /** The outcome of one write(2); `Broken` stands for EPIPE and ECONNRESET. */
  datatype WriteResult = Wrote(n: nat) | WouldBlock | Broken | OtherError

  /**
   * A connection as seen from outside: `kernel` is what the socket has taken, `accepted` what send() has undertaken
   * to deliver, `out` the output buffer, `writing` the channel's write interest and `fins` the FINs sent.
   */
  datatype Conn = Conn(state: State, out: seq<Byte>, writing: bool,
                       kernel: seq<Byte>, accepted: seq<Byte>, fins: nat)

  const ESTABLISHED := Conn(Connected, [], false, [], [], 0)

  datatype Event =
    | Send(data: seq<Byte>, w: WriteResult)
    | Writable(w: WriteResult)
    | Shutdown
    | ForceClose
    | Closed
    | Destroyed

  /** write(2) takes at most what it is given. */
  ghost predicate Possible(c: Conn, e: Event) {
    match e
    case Send(data, Wrote(n)) => n <= |data|
    case Writable(Wrote(n)) => n <= |c.out|
    case _ => true
  }

  /** Nothing is lost, reordered or sent twice, and the FIN comes once, after everything. */
  ghost predicate Faithful(c: Conn) {
    && c.kernel + c.out == c.accepted
    && (if c.state == Disconnected then !c.writing else c.writing <==> c.out != [])
    && c.fins <= 1
    && (c.fins == 1 ==> c.kernel == c.accepted)
    && (c.state == Disconnecting ==> (c.fins == 1 <==> c.kernel == c.accepted))
    && (c.state == Connected || c.state == Connecting ==> c.fins == 0)
  }

  function ShutdownInLoop(c: Conn): Conn {
    if c.writing then c else c.(fins := c.fins + 1)
  }

  function Close(c: Conn): Conn {
    c.(state := Disconnected, writing := false)
  }

  function SendInLoop(c: Conn, data: seq<Byte>, w: WriteResult): Conn
    requires w.Wrote? ==> w.n <= |data|
  {
    if c.state == Disconnected then c
    else if c.writing || c.out != [] then
      c.(out := c.out + data, writing := c.writing || data != [], accepted := c.accepted + data)
    else if w.Broken? then c
    else
      var n := if w.Wrote? then w.n else 0;
      c.(out := data[n..], writing := n < |data|, kernel := c.kernel + data[..n], accepted := c.accepted + data)
  }

  function HandleWrite(c: Conn, w: WriteResult): Conn
    requires w.Wrote? ==> w.n <= |c.out|
  {
    if !c.writing || !w.Wrote? || w.n == 0 then c else
    var d := c.(out := c.out[w.n..], kernel := c.kernel + c.out[..w.n]);
    if d.out != [] then d else
    var f := d.(writing := false);
    if f.state == Disconnecting then ShutdownInLoop(f) else f
  }

  function Step(c: Conn, e: Event): Conn
    requires Possible(c, e)
  {
    match e
    case Send(data, w) => if c.state == Connected then SendInLoop(c, data, w) else c
    case Writable(w) => HandleWrite(c, w)
    case Shutdown => if c.state == Connected then ShutdownInLoop(c.(state := Disconnecting)) else c
    case ForceClose => if c.state == Connected || c.state == Disconnecting then Close(c) else c
    case Closed => Close(c)
    case Destroyed => if c.state == Connected then Close(c) else c
  }

  lemma SendFaithful(c: Conn, e: Event)
    requires Faithful(c) && Possible(c, e) && e.Send?
    ensures Faithful(Step(c, e)) && c.kernel <= Step(c, e).kernel
  {
    if c.state == Connected && !c.writing && e.w.Wrote? {
      assert (c.kernel + e.data[..e.w.n]) + e.data[e.w.n..] == c.kernel + e.data;
    }
  }

  lemma WritableFaithful(c: Conn, e: Event)
    requires Faithful(c) && Possible(c, e) && e.Writable?
    ensures Faithful(Step(c, e)) && c.kernel <= Step(c, e).kernel
  {
    if c.writing && e.w.Wrote? {
      assert (c.kernel + c.out[..e.w.n]) + c.out[e.w.n..] == c.kernel + c.out;
    }
  }

  lemma StepFaithful(c: Conn, e: Event)
    requires Faithful(c) && Possible(c, e)
    ensures Faithful(Step(c, e)) && c.kernel <= Step(c, e).kernel
  {
    if e.Send? {
      SendFaithful(c, e);
    } else if e.Writable? {
      WritableFaithful(c, e);
    }
  }

  /** Once the FIN is out, the socket is given nothing more and no second FIN. */
  lemma StepAfterFin(c: Conn, e: Event)
    requires Faithful(c) && Possible(c, e) && c.fins == 1
    ensures Step(c, e).kernel == c.kernel && Step(c, e).accepted == c.accepted && Step(c, e).fins == 1
  {
  }

  ghost predicate Run(states: seq<Conn>, events: seq<Event>) {
    && |states| == |events| + 1 && states[0] == ESTABLISHED
    && forall i | 0 <= i < |events| :: Possible(states[i], events[i]) && states[i + 1] == Step(states[i], events[i])
  }

  /** The later connection has all of the earlier one's stream, and exactly that if the FIN was out. */
  ghost predicate Continues(c: Conn, d: Conn) {
    && c.kernel <= d.kernel
    && (c.fins == 1 ==> d.kernel == c.kernel == c.accepted == d.accepted && d.fins == 1)
  }

  lemma StepContinues(c: Conn, e: Event)
    requires Faithful(c) && Possible(c, e)
    ensures Continues(c, Step(c, e))
  {
    StepFaithful(c, e);
    if c.fins == 1 {
      StepAfterFin(c, e);
    }
  }

  lemma ContinuesTransitive(a: Conn, b: Conn, c: Conn)
    requires Continues(a, b) && Continues(b, c)
    ensures Continues(a, c)
  {
  }

  lemma RunStart(states: seq<Conn>, events: seq<Event>)
    requires Run(states, events)
    ensures Faithful(states[0])
  {
  }

  lemma RunStep(states: seq<Conn>, events: seq<Event>, j: nat)
    requires Run(states, events) && 0 < j < |states|
    ensures |events| == |states| - 1 && Possible(states[j - 1], events[j - 1])
    ensures states[j] == Step(states[j - 1], events[j - 1])
  {
  }

  /** Every state of every run is faithful, and after the FIN the socket's stream is final and complete. */
  lemma {:induction false} RunFaithful(states: seq<Conn>, events: seq<Event>, i: nat, j: nat)
    requires Run(states, events) && i <= j < |states|
    ensures Faithful(states[j]) && Continues(states[i], states[j])
    decreases j
  {
    if j == 0 {
      RunStart(states, events);
    } else {
      RunFaithful(states, events, if i < j then i else j - 1, j - 1);
      RunStep(states, events, j);
      var c, e := states[j - 1], events[j - 1];
      StepFaithful(c, e);
      StepContinues(c, e);
      hide Run, Faithful, Step, Possible;
      if i < j {
        hide Continues;
        ContinuesTransitive(states[i], c, states[j]);
      }
    }
    if i == j {
      ContinuesSelf(states[j]);
    }
  }

  lemma ContinuesSelf(c: Conn)
    requires Faithful(c)
    ensures Continues(c, c)
  {
  }

  /** What a send undertakes to deliver: its data, unless it was refused with EPIPE or ECONNRESET. */
  function Undertaken(c: Conn, e: Event): seq<Byte> {
    if e.Send? && c.state == Connected && !(e.w.Broken? && c.out == []) then e.data else []
  }

  function Sends(states: seq<Conn>, events: seq<Event>): seq<seq<Byte>>
    requires |states| >= |events|
  {
    seq(|events|, i requires 0 <= i < |events| => Undertaken(states[i], events[i]))
  }

  /** The socket's stream and the output buffer together are all the data sent so far, in order. */
  lemma {:induction false} RunDelivers(states: seq<Conn>, events: seq<Event>)
    requires Run(states, events)
    ensures var last := states[|events|]; last.kernel + last.out == Flatten(Sends(states, events))
    decreases |events|
  {
    var n := |events|;
    RunFaithful(states, events, n, n);
    if n > 0 {
      RunDelivers(states[..n], events[..n - 1]);
      RunFaithful(states, events, n - 1, n - 1);
      StepUndertakes(states[n - 1], events[n - 1]);
      var before := Sends(states[..n], events[..n - 1]);
      assert Sends(states, events) == before + [Undertaken(states[n - 1], events[n - 1])];
      FlattenConcat(before, [Undertaken(states[n - 1], events[n - 1])]);
    }
  }

  lemma StepUndertakes(c: Conn, e: Event)
    requires Faithful(c) && Possible(c, e)
    ensures Step(c, e).accepted == c.accepted + Flatten([Undertaken(c, e)])
  {
    assert [Undertaken(c, e)][1..] == [];
  }

  // ----- What each event achieves -----

  /** With nothing waiting, a send goes to the socket first; what that does not take waits, behind whatever waits. */
  lemma SendTakesEffect(c: Conn, data: seq<Byte>, w: WriteResult)
    requires Faithful(c) && Possible(c, Send(data, w))
    ensures var d := Step(c, Send(data, w));
            && d.state == c.state && d.fins == c.fins
            && (if c.state != Connected || (c.out == [] && w.Broken?) then d == c
                else if c.out != [] then
                  d.kernel == c.kernel && d.out == c.out + data && d.writing && d.accepted == c.accepted + data
                else
                  var n := if w.Wrote? then w.n else 0;
                  && d.kernel == c.kernel + data[..n] && d.out == data[n..] && d.accepted == c.accepted + data
                  && (d.writing <==> n < |data|))
  {
  }

  /** A writable socket takes octets from the front of what waits; with the last of them a deferred FIN goes out. */
  lemma WritableTakesEffect(c: Conn, w: WriteResult)
    requires Faithful(c) && Possible(c, Writable(w))
    ensures var d := Step(c, Writable(w));
            && d.state == c.state && d.accepted == c.accepted
            && (if !c.writing || !w.Wrote? then d == c
                else
                  && d.kernel == c.kernel + c.out[..w.n] && d.out == c.out[w.n..] && (d.writing <==> w.n < |c.out|)
                  && d.fins == if w.n == |c.out| && c.state == Disconnecting then 1 else c.fins)
  {
    if w.Wrote? && w.n == 0 {
      assert c.kernel + c.out[..0] == c.kernel && c.out[0..] == c.out;
    }
  }

  /** Shutting down refuses further sends; the FIN goes out at once if nothing waits. */
  lemma ShutdownTakesEffect(c: Conn)
    requires Faithful(c)
    ensures var d := Step(c, Event.Shutdown);
            if c.state == Connected then
              d == c.(state := Disconnecting, fins := if c.out == [] then 1 else 0)
            else d == c
  {
  }

  /** Closing takes effect in every state it applies to, and loses interest in writing. */
  lemma CloseTakesEffect(c: Conn)
    ensures var closed := c.(state := Disconnected, writing := false);
            && Step(c, Closed) == closed
            && Step(c, Event.ForceClose) == (if c.state in {Connected, Disconnecting} then closed else c)
            && Step(c, Destroyed) == (if c.state == Connected then closed else c)
  {
  }

  function Total(ns: seq<nat>): nat {
    if ns == [] then 0 else ns[0] + Total(ns[1..])
  }

  /** Writable events that take these many octets. */
  function Drained(c: Conn, ns: seq<nat>): Conn
    requires Total(ns) <= |c.out|
    decreases |ns|
  {
    if ns == [] then c else
    var d := Step(c, Writable(Wrote(ns[0])));
    if Total(ns[1..]) <= |d.out| then Drained(d, ns[1..]) else d
  }

  /**
   * Delivery: once writable events have taken as many octets as were waiting, in whatever portions, everything accepted
   * is in the socket, nothing waits, and a shutdown asked for is completed.
   */
  lemma {:induction false} DrainDelivers(c: Conn, ns: seq<nat>)
    requires Faithful(c) && c.state != Disconnected && Total(ns) == |c.out|
    ensures var d := Drained(c, ns);
            && d.kernel == d.accepted == c.accepted && d.out == [] && !d.writing && d.state == c.state
            && d.fins == if c.state == Disconnecting then 1 else 0
    decreases |ns|
  {
    if ns != [] {
      var e := Writable(Wrote(ns[0]));
      StepFaithful(c, e);
      WritableTakesEffect(c, e.w);
      hide Step, Faithful;
      if c.out == [] {
        NothingWaits(c, e);
      }
      DrainDelivers(Step(c, e), ns[1..]);
    }
  }

  lemma NothingWaits(c: Conn, e: Event)
    requires Faithful(c) && c.state != Disconnected && c.out == [] && e.Writable?
    requires Possible(c, e)
    ensures Step(c, e) == c
  {
  }

  /** In particular a shutdown is completed by sending what waited when it was asked for. */
  lemma ShutdownCompletes(c: Conn, ns: seq<nat>)
    requires Faithful(c) && c.state == Connected && Total(ns) == |c.out|
    ensures var s := Step(c, Event.Shutdown);
            Total(ns) <= |s.out| && Drained(s, ns).fins == 1 && Drained(s, ns).kernel == c.accepted
  {
    StepFaithful(c, Event.Shutdown);
    ShutdownTakesEffect(c);
    DrainDelivers(Step(c, Event.Shutdown), ns);
  }

  class TcpConnection {
    var state: State
    var outputBuffer: Buffer
    var writeEnabled: bool
    var kernel: seq<Byte>
    var fins: nat
    ghost var accepted: seq<Byte>

    ghost predicate Valid()
      reads this, outputBuffer, outputBuffer.buffer
    {
      outputBuffer.Valid() && Faithful(Value())
    }

    ghost function Value(): Conn
      requires outputBuffer.Valid()
      reads this, outputBuffer, outputBuffer.buffer
    {
      Conn(state, outputBuffer.Contents(), writeEnabled, kernel, accepted, fins)
    }

    /** A connection once connectEstablished has run. */
    constructor ()
      ensures Valid() && fresh(outputBuffer) && fresh(outputBuffer.buffer) && Value() == ESTABLISHED
    {
      state := Connected;
      outputBuffer := new Buffer(INITIAL_SIZE);
      writeEnabled, kernel, fins, accepted := false, [], 0, [];
    }

    /** write(2) on `data`: the socket takes a prefix of it or fails. */
    method Write(data: seq<Byte>, w: WriteResult) returns (nwrote: int)
      requires w.Wrote? ==> w.n <= |data|
      modifies this`kernel
      ensures nwrote == if w.Wrote? then w.n else -1
      ensures kernel == old(kernel) + (if w.Wrote? then data[..w.n] else [])
    {
      if w.Wrote? {
        kernel := kernel + data[..w.n];
        nwrote := w.n;
      } else {
        nwrote := -1;
      }
    }

    method SendData(data: seq<Byte>, w: WriteResult)
      requires Valid() && (w.Wrote? ==> w.n <= |data|)
      modifies this, outputBuffer, outputBuffer.buffer
      ensures Valid() && outputBuffer == old(outputBuffer) && Value() == Step(old(Value()), Send(data, w))
      ensures outputBuffer.buffer == old(outputBuffer.buffer) || fresh(outputBuffer.buffer)
    {
      StepFaithful(Value(), Send(data, w));
      if state == Connected {
        SendDataInLoop(data, w);
      }
    }

    method SendDataInLoop(data: seq<Byte>, w: WriteResult)
      requires outputBuffer.Valid() && (w.Wrote? ==> w.n <= |data|)
      modifies this, outputBuffer, outputBuffer.buffer
      ensures outputBuffer.Valid() && outputBuffer == old(outputBuffer)
      ensures Value() == SendInLoop(old(Value()), data, w)
      ensures outputBuffer.buffer == old(outputBuffer.buffer) || fresh(outputBuffer.buffer)
    {
      hide Step, Faithful;
      if state == Disconnected {
        return;
      }
      var nwrote, faultError := 0, false;
      if !writeEnabled && outputBuffer.ReadableBytes() == 0 {
        nwrote, faultError := WriteDirectly(data, w);
      }
      assert data[0..] == data;
      if !faultError {
        accepted := accepted + data;
        if |data| > nwrote {
          Enqueue(data[nwrote..]);
        }
      }
    }

    method WriteDirectly(data: seq<Byte>, w: WriteResult) returns (nwrote: nat, faultError: bool)
      requires w.Wrote? ==> w.n <= |data|
      modifies this`kernel
      ensures nwrote == (if w.Wrote? then w.n else 0) && faultError == w.Broken?
      ensures kernel == old(kernel) + data[..nwrote]
    {
      var n := Write(data, w);
      if n < 0 {
        return 0, w.Broken?;
      }
      return n, false;
    }

    /** What a write left over waits in the output buffer for the next writable event. */
    method Enqueue(rest: seq<Byte>)
      requires outputBuffer.Valid()
      modifies this`writeEnabled, outputBuffer, outputBuffer.buffer
      ensures outputBuffer.Valid() && writeEnabled
      ensures outputBuffer.Contents() == old(outputBuffer.Contents()) + rest
      ensures outputBuffer.buffer == old(outputBuffer.buffer) || fresh(outputBuffer.buffer)
    {
      outputBuffer.Append(rest);
      if !writeEnabled {
        writeEnabled := true;
      }
    }

    method OnWritable(w: WriteResult)
      requires Valid() && (w.Wrote? ==> w.n <= |outputBuffer.Contents()|)
      modifies this, outputBuffer, outputBuffer.buffer
      ensures Valid() && outputBuffer == old(outputBuffer) && Value() == Step(old(Value()), Writable(w))
    {
      StepFaithful(Value(), Writable(w));
      if writeEnabled {
        var pending := outputBuffer.Peek();
        var n := Write(pending, w);
        if n > 0 {
          outputBuffer.Retrieve(n);
          if outputBuffer.ReadableBytes() == 0 {
            writeEnabled := false;
            if state == Disconnecting {
              ShutdownWriteWhenDrained();
            }
          }
        }
      }
    }

    method ShutdownWriteWhenDrained()
      requires outputBuffer.Valid()
      modifies this`fins
      ensures Value() == ShutdownInLoop(old(Value()))
    {
      if !writeEnabled {
        fins := fins + 1;
      }
    }

    method Shutdown()
      requires Valid()
      modifies this
      ensures Valid() && outputBuffer == old(outputBuffer) && Value() == Step(old(Value()), Event.Shutdown)
    {
      StepFaithful(Value(), Event.Shutdown);
      if state == Connected {
        state := Disconnecting;
        ShutdownWriteWhenDrained();
      }
    }

    method HandleClose()
      requires Valid()
      modifies this`state, this`writeEnabled
      ensures Valid() && Value() == Step(old(Value()), Closed)
    {
      StepFaithful(Value(), Closed);
      state := Disconnected;
      writeEnabled := false;
    }

    method ForceClose()
      requires Valid()
      modifies this`state, this`writeEnabled
      ensures Valid() && Value() == Step(old(Value()), Event.ForceClose)
    {
      if state == Connected || state == Disconnecting {
        HandleClose();
      }
    }

    method ConnectDestroyed()
      requires Valid()
      modifies this`state, this`writeEnabled
      ensures Valid() && Value() == Step(old(Value()), Destroyed)
    {
      if state == Connected {
        HandleClose();
      }
    }
  }
}
