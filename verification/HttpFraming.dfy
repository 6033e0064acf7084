/** Requests in a segmented byte stream: the true sequence of exchanges, and what the server dispatches of it. */
module HttpFraming {
  import opened Bytes
  import opened HttpSyntax
  import opened HttpStability
  import opened HttpGrammar
  import opened HttpRoundTrip
  import opened HttpLength

  const MAX_HEADERS: nat := 100

  datatype Exchange = Exchange(method_: seq<Byte>, path: seq<Byte>, body: seq<Byte>)

  // ----- The true sequence -----

  datatype Front = NeedMore | Invalid | Got(exchange: Exchange, size: nat)

  /** The first request of a stream, with a body of exactly its Content-Length octets. */
  function Next(s: seq<Byte>): (f: Front)
    ensures f.Got? ==> 0 < f.size <= |s|
  {
    match ParseRequest(s, MAX_HEADERS)
    case Partial => NeedMore
    case Bad => Invalid
    case Ok(r) =>
      var n := r.length + ContentLength(r.headers);
      if |s| < n then NeedMore else Got(Exchange(r.method_, r.path, s[r.length..n]), n)
  }

  function Exchanges(s: seq<Byte>): seq<Exchange> {
    var f := Next(s);
    if f.Got? then [f.exchange] + Exchanges(s[f.size..]) else []
  }

  /** No request in the stream is malformed. */
  predicate WellFormed(s: seq<Byte>) {
    var f := Next(s);
    f != Invalid && (f.Got? ==> WellFormed(s[f.size..]))
  }

  /** The stream after its first `k` exchanges. */
  function Skip(s: seq<Byte>, k: nat): seq<Byte>
    requires k <= |Exchanges(s)|
    decreases |s|
  {
    if k == 0 then s else Skip(s[Next(s).size..], k - 1)
  }

  // ----- The server -----

  datatype Phase = BetweenRequests | InBody(method_: seq<Byte>, path: seq<Byte>, length: nat)

  /** One connection: parser phase, body collected so far, input buffer. */
  datatype Conn = Conn(phase: Phase, body: seq<Byte>, buffer: seq<Byte>) {
    ghost predicate Valid() {
      if phase.InBody? then |body| < phase.length else body == []
    }
  }

  const IDLE := Conn(BetweenRequests, [], [])

  datatype Reaction = Reaction(conn: Conn, dispatched: seq<Exchange>)

  /** collectBody */
  function Collect(c: Conn): (r: Reaction)
    requires c.Valid() && c.phase.InBody?
    ensures r.conn.Valid()
  {
    var missing := c.phase.length - |c.body|;
    if |c.buffer| < missing then
      Reaction(Conn(c.phase, c.body + c.buffer, []), [])
    else
      Reaction(Conn(BetweenRequests, [], c.buffer[missing..]),
               [Exchange(c.phase.method_, c.phase.path, c.body + c.buffer[..missing])])
  }

  /** onMessage, called when the buffer has grown */
  function OnMessage(c: Conn): (r: Reaction)
    requires c.Valid()
    ensures r.conn.Valid()
  {
    if c.phase.InBody? then Collect(c) else
    match ParseRequest(c.buffer, MAX_HEADERS)
    case Partial => Reaction(c, [])
    case Bad => Reaction(c.(buffer := []), [])
    case Ok(r) =>
      var rest := c.buffer[r.length..];
      var length := ContentLength(r.headers);
      if length > 0 then Collect(Conn(InBody(r.method_, r.path, length), [], rest))
      else Reaction(c.(buffer := rest), [Exchange(r.method_, r.path, [])])
  }

  /** Everything dispatched, and the connection's state, after reading the segments one after another. */
  function After(segments: seq<seq<Byte>>): (r: Reaction)
    ensures r.conn.Valid()
  {
    if segments == [] then Reaction(IDLE, []) else
    var n := |segments| - 1;
    var r := After(segments[..n]);
    var e := OnMessage(r.conn.(buffer := r.conn.buffer + segments[n]));
    Reaction(e.conn, r.dispatched + e.dispatched)
  }

  /** How many exchanges are dispatched: each read dispatches one more if one is complete, and only one. */
  function Due(segments: seq<seq<Byte>>): nat {
    if segments == [] then 0 else
    var complete, next := |Exchanges(Flatten(segments))|, Due(segments[..|segments| - 1]) + 1;
    if complete < next then complete else next
  }

  // ----- Streams that grow -----

  lemma NextStable(s: seq<Byte>, t: seq<Byte>)
    ensures Next(s) == NeedMore || Next(s + t) == Next(s)
    ensures Next(s).Got? ==> (s + t)[Next(s).size..] == s[Next(s).size..] + t
  {
    hide ParseRequest, ContentLength;
    RequestStable(s, t, MAX_HEADERS);
    if Next(s).Got? {
      var r := ParseRequest(s, MAX_HEADERS).value;
      var n := r.length + ContentLength(r.headers);
      assert (s + t)[r.length..n] == s[r.length..n];
    }
  }

  lemma {:induction false} Growing(s: seq<Byte>, t: seq<Byte>)
    ensures Exchanges(s) <= Exchanges(s + t)
    ensures WellFormed(s + t) ==> WellFormed(s)
    decreases |s|
  {
    hide Next;
    NextStable(s, t);
    if Next(s).Got? {
      Growing(s[Next(s).size..], t);
    }
  }

  lemma {:induction false} SkipGrowing(s: seq<Byte>, t: seq<Byte>, k: nat)
    requires k <= |Exchanges(s)|
    ensures k <= |Exchanges(s + t)| && Skip(s + t, k) == Skip(s, k) + t
    decreases |s|
  {
    hide Next;
    NextStable(s, t);
    if k > 0 {
      SkipGrowing(s[Next(s).size..], t, k - 1);
    }
  }

  lemma {:induction false} AfterSkip(s: seq<Byte>, k: nat)
    requires k <= |Exchanges(s)|
    ensures Exchanges(s) == Exchanges(s)[..k] + Exchanges(Skip(s, k))
    ensures WellFormed(s) ==> WellFormed(Skip(s, k))
    ensures var f := Next(Skip(s, k));
            if f.Got? then k < |Exchanges(s)| && Exchanges(s)[k] == f.exchange && Skip(s, k + 1) == Skip(s, k)[f.size..]
            else k == |Exchanges(s)|
    decreases |s|
  {
    hide Next;
    if k > 0 {
      AfterSkip(s[Next(s).size..], k - 1);
    }
  }

  // ----- What the connection stands for -----

  /** `pending` is the undispatched part of the stream: buffered, collected, or the header being served. */
  ghost predicate Represents(c: Conn, pending: seq<Byte>) {
    if c.phase.BetweenRequests? then pending == c.buffer && c.body == [] else
    var p := ParseRequest(pending, MAX_HEADERS);
    && p.Ok? && p.value.method_ == c.phase.method_ && p.value.path == c.phase.path
    && c.phase.length == ContentLength(p.value.headers) && |c.body| < c.phase.length
    && c.body + c.buffer == pending[p.value.length..]
  }

  lemma Arrive(c: Conn, pending: seq<Byte>, segment: seq<Byte>)
    requires Represents(c, pending)
    ensures Represents(c.(buffer := c.buffer + segment), pending + segment)
  {
    hide ParseRequest, ContentLength;
    if c.phase.InBody? {
      RequestStable(pending, segment, MAX_HEADERS);
      var n := ParseRequest(pending, MAX_HEADERS).value.length;
      assert (pending + segment)[n..] == pending[n..] + segment == c.body + (c.buffer + segment);
    }
  }

  lemma CollectRepresents(c: Conn, pending: seq<Byte>)
    requires c.Valid() && c.phase.InBody? && Represents(c, pending)
    ensures Reacts(Collect(c), pending)
  {
    hide ParseRequest, ContentLength;
    var n := ParseRequest(pending, MAX_HEADERS).value.length;
    var missing := c.phase.length - |c.body|;
    if |c.buffer| < missing {
      assert (c.body + c.buffer) + [] == pending[n..];
    } else {
      var all := c.body + c.buffer;
      assert pending[n..n + c.phase.length] == all[..c.phase.length] == c.body + c.buffer[..missing];
      assert pending[n + c.phase.length..] == all[c.phase.length..] == c.buffer[missing..];
    }
  }

  /** A reaction dispatches the first pending exchange if it is complete, and nothing otherwise. */
  ghost predicate Reacts(r: Reaction, pending: seq<Byte>) {
    var f := Next(pending);
    if f.Got? then r.dispatched == [f.exchange] && Represents(r.conn, pending[f.size..])
    else r.dispatched == [] && (f == NeedMore ==> Represents(r.conn, pending))
  }

  lemma OnMessageReacts(c: Conn, pending: seq<Byte>)
    requires c.Valid() && Represents(c, pending)
    ensures Reacts(OnMessage(c), pending)
  {
    hide ParseRequest, ContentLength, Collect;
    if c.phase.InBody? {
      CollectRepresents(c, pending);
    } else {
      var p := ParseRequest(c.buffer, MAX_HEADERS);
      if p.Ok? && ContentLength(p.value.headers) > 0 {
        var rest := c.buffer[p.value.length..];
        assert [] + rest == rest;
        var phase := InBody(p.value.method_, p.value.path, ContentLength(p.value.headers));
        CollectRepresents(Conn(phase, [], rest), pending);
      } else if p.Ok? {
        assert pending[p.value.length..p.value.length] == [];
      }
    }
  }

  /** What has been dispatched is the first part of the true sequence, and the rest of the stream is still at hand. */
  ghost predicate Framed(segments: seq<seq<Byte>>) {
    var s, r := Flatten(segments), After(segments);
    && |r.dispatched| == Due(segments) <= |Exchanges(s)|
    && r.dispatched == Exchanges(s)[..Due(segments)]
    && Represents(r.conn, Skip(s, Due(segments)))
  }

  /** Some read finds nothing but a malformed request left to serve. */
  predicate Hits(segments: seq<seq<Byte>>) {
    segments != [] &&
    var earlier, s := segments[..|segments| - 1], Flatten(segments);
    Hits(earlier) || (!WellFormed(s) && |Exchanges(s)| <= Due(earlier))
  }

  /**
   * End-to-end framing, for every stream and every way of cutting it into reads: it is kept exactly as long as no
   * read comes upon a malformed request, which empties the buffer.
   */
  lemma {:induction false} FramedIff(segments: seq<seq<Byte>>)
    ensures Framed(segments) <==> !Hits(segments)
    ensures Hits(segments) ==> Lost(segments)
    decreases |segments|
  {
    if segments != [] {
      hide Framed, Lost, Due, After, WellFormed, Exchanges, Flatten;
      var n := |segments| - 1;
      FramedIff(segments[..n]);
      LastRead(segments);
      if Hits(segments[..n]) {
        StaysLost(segments);
      } else if !WellFormed(Flatten(segments)) && |Exchanges(Flatten(segments))| <= Due(segments[..n]) {
        GetsLost(segments);
      } else {
        StaysFramed(segments);
      }
      if Lost(segments) {
        LostNotFramed(segments);
      }
    }
  }

  lemma LastRead(segments: seq<seq<Byte>>)
    requires segments != []
    ensures var n := |segments| - 1;
            && Flatten(segments) == Flatten(segments[..n]) + segments[n]
            && Exchanges(Flatten(segments[..n])) <= Exchanges(Flatten(segments))
  {
    var n := |segments| - 1;
    FlattenSplit(segments, n);
    assert segments[n..] == [segments[n]];
    assert Flatten(segments[n..]) == segments[n] by { assert segments[n..][1..] == []; }
    Growing(Flatten(segments[..n]), segments[n]);
  }

  /** The malformed request is still ahead in the stream, but its octets are gone. */
  ghost predicate Lost(segments: seq<seq<Byte>>) {
    var s, k := Flatten(segments), Due(segments);
    && k == |Exchanges(s)| && Next(Skip(s, k)) == Invalid
    && |After(segments).conn.buffer| < |Skip(s, k)|
  }

  lemma LostNotFramed(segments: seq<seq<Byte>>)
    requires Lost(segments)
    ensures !Framed(segments)
  {
    hide After, Due, Skip, ParseRequest;
  }

  /** Nothing but an invalid request is left, whatever else arrives. */
  lemma InvalidStays(before: seq<Byte>, seg: seq<Byte>, k: nat)
    requires k == |Exchanges(before)| && Next(Skip(before, k)) == Invalid
    ensures var s := before + seg;
            k == |Exchanges(s)| && Skip(s, k) == Skip(before, k) + seg && Next(Skip(s, k)) == Invalid
  {
    hide Next;
    SkipGrowing(before, seg, k);
    NextStable(Skip(before, k), seg);
    AfterSkip(before + seg, k);
  }

  lemma OnMessageShrinks(c: Conn)
    requires c.Valid()
    ensures |OnMessage(c).conn.buffer| <= |c.buffer|
  {
    hide ParseRequest, ContentLength;
  }

  lemma StaysFramed(segments: seq<seq<Byte>>)
    requires segments != [] && Framed(segments[..|segments| - 1])
    requires Flatten(segments) == Flatten(segments[..|segments| - 1]) + segments[|segments| - 1]
    requires WellFormed(Flatten(segments)) || |Exchanges(Flatten(segments))| > Due(segments[..|segments| - 1])
    ensures Framed(segments)
  {
    hide WellFormed, Represents, Skip, OnMessage, Exchanges, Flatten;
    var n := |segments| - 1;
    DispatchOne(Flatten(segments[..n]), segments[n], After(segments[..n]), Due(segments[..n]));
  }

  lemma StaysLost(segments: seq<seq<Byte>>)
    requires segments != [] && Lost(segments[..|segments| - 1])
    requires Flatten(segments) == Flatten(segments[..|segments| - 1]) + segments[|segments| - 1]
    ensures Lost(segments)
  {
    hide Next, OnMessage, Skip;
    var n := |segments| - 1;
    var before, seg, r := Flatten(segments[..n]), segments[n], After(segments[..n]);
    InvalidStays(before, seg, Due(segments[..n]));
    OnMessageShrinks(r.conn.(buffer := r.conn.buffer + seg));
  }

  lemma GetsLost(segments: seq<seq<Byte>>)
    requires segments != [] && Framed(segments[..|segments| - 1])
    requires Flatten(segments) == Flatten(segments[..|segments| - 1]) + segments[|segments| - 1]
    requires !WellFormed(Flatten(segments)) && |Exchanges(Flatten(segments))| <= Due(segments[..|segments| - 1])
    ensures Lost(segments)
  {
    hide Next, OnMessage, Represents, WellFormed, Skip;
    var n := |segments| - 1;
    var s, seg, c, k := Flatten(segments), segments[n], After(segments[..n]).conn, Due(segments[..n]);
    Growing(Flatten(segments[..n]), seg);
    SkipGrowing(Flatten(segments[..n]), seg, k);
    Arrive(c, Skip(Flatten(segments[..n]), k), seg);
    AfterSkip(s, k);
    MalformedAhead(s);
    DropsInvalid(c.(buffer := c.buffer + seg), Skip(s, k));
  }

  lemma {:induction false} MalformedAhead(s: seq<Byte>)
    ensures WellFormed(s) <==> Next(Skip(s, |Exchanges(s)|)) != Invalid
    decreases |s|
  {
    hide Next;
    if Next(s).Got? {
      MalformedAhead(s[Next(s).size..]);
    }
  }

  lemma DropsInvalid(c: Conn, pending: seq<Byte>)
    requires c.Valid() && Represents(c, pending) && Next(pending) == Invalid
    ensures OnMessage(c) == Reaction(IDLE, []) && pending != []
  {
    hide ContentLength;
  }

  /** In particular, a well-formed stream is served in order however it is cut into reads. */
  lemma DispatchesInOrder(segments: seq<seq<Byte>>)
    requires WellFormed(Flatten(segments))
    ensures Framed(segments)
  {
    NeverHits(segments);
    FramedIff(segments);
  }

  lemma {:induction false} NeverHits(segments: seq<seq<Byte>>)
    requires WellFormed(Flatten(segments))
    ensures !Hits(segments)
    decreases |segments|
  {
    if segments != [] {
      LastRead(segments);
      Growing(Flatten(segments[..|segments| - 1]), segments[|segments| - 1]);
      NeverHits(segments[..|segments| - 1]);
    }
  }

  lemma DispatchOne(before: seq<Byte>, seg: seq<Byte>, r: Reaction, k: nat)
    requires k <= |Exchanges(before)| && r.conn.Valid() && Represents(r.conn, Skip(before, k))
    requires r.dispatched == Exchanges(before)[..k] && (WellFormed(before + seg) || k < |Exchanges(before + seg)|)
    ensures var s, e := before + seg, OnMessage(r.conn.(buffer := r.conn.buffer + seg));
            var k' := if k < |Exchanges(s)| then k + 1 else k;
            && k <= |Exchanges(s)| && r.dispatched + e.dispatched == Exchanges(s)[..k']
            && Represents(e.conn, Skip(s, k'))
  {
    hide Next, OnMessage, Represents, WellFormed;
    var s := before + seg;
    Growing(before, seg);
    SkipGrowing(before, seg, k);
    Arrive(r.conn, Skip(before, k), seg);
    AfterSkip(s, k);
    MalformedAhead(s);
    OnMessageReacts(r.conn.(buffer := r.conn.buffer + seg), Skip(s, k));
    assert Exchanges(s)[..k] == Exchanges(before)[..k];
  }

  /** The number of exchanges complete after the first `k` reads. */
  function CompleteAfter(segments: seq<seq<Byte>>, k: nat): nat
    requires k <= |segments|
  {
    |Exchanges(Flatten(segments[..k]))|
  }

  /** After every read, everything complete has been dispatched. */
  ghost predicate NeverBehind(segments: seq<seq<Byte>>) {
    forall k :: 0 <= k <= |segments| ==> |After(segments[..k]).dispatched| == CompleteAfter(segments, k)
  }

  /** No read completes more than one exchange. */
  ghost predicate OneAtATime(segments: seq<seq<Byte>>) {
    forall k :: 0 <= k < |segments| ==> CompleteAfter(segments, k + 1) <= CompleteAfter(segments, k) + 1
  }

  lemma {:induction false} HitsStays(segments: seq<seq<Byte>>, k: nat)
    requires k <= |segments| && !Hits(segments)
    ensures !Hits(segments[..k])
    decreases |segments|
  {
    if k < |segments| {
      var earlier := segments[..|segments| - 1];
      assert earlier[..k] == segments[..k];
      HitsStays(earlier, k);
    } else {
      assert segments[..k] == segments;
    }
  }

  /**
   * As long as no read comes upon a malformed request, a complete request waits for a later read exactly when some
   * read completes several: one message callback dispatches at most one request, so pipelined requests are not all
   * served when they arrive.
   */
  lemma PromptIffOneAtATime(segments: seq<seq<Byte>>)
    requires !Hits(segments)
    ensures NeverBehind(segments) <==> OneAtATime(segments)
  {
    forall k | 0 <= k <= |segments|
      ensures |After(segments[..k]).dispatched| == Due(segments[..k]) <= CompleteAfter(segments, k)
    {
      FlattenSplit(segments, k);
      Growing(Flatten(segments[..k]), Flatten(segments[k..]));
      HitsStays(segments, k);
      FramedIff(segments[..k]);
    }
    forall k | 0 <= k < |segments|
      ensures Due(segments[..k + 1]) ==
              if CompleteAfter(segments, k + 1) < Due(segments[..k]) + 1 then CompleteAfter(segments, k + 1)
              else Due(segments[..k]) + 1
    {
      assert segments[..k + 1][..k] == segments[..k];
    }
    if OneAtATime(segments) {
      PromptUpTo(segments, |segments|);
    }
  }

  lemma {:induction false} PromptUpTo(segments: seq<seq<Byte>>, n: nat)
    requires n <= |segments| && OneAtATime(segments)
    ensures forall k :: 0 <= k <= n ==> Due(segments[..k]) == CompleteAfter(segments, k)
  {
    if n == 0 {
      assert Flatten(segments[..0]) == [];
      assert Next([]) == NeedMore;
    } else {
      PromptUpTo(segments, n - 1);
      assert segments[..n][..n - 1] == segments[..n - 1];
      FlattenSplit(segments[..n], n - 1);
      Growing(Flatten(segments[..n - 1]), Flatten(segments[..n][n - 1..]));
    }
  }

  // ----- Streams of printed requests -----

  /** A request as a client sends it: at most 100 fields, the Content-Length among them spelling the body's size. */
  datatype Sent = Sent(request: Request, body: seq<Byte>) {
    ghost predicate Valid() {
      && PrintableRequest(request) && |request.headers| <= 100
      && |body| < U64 && SpellsLength(request.headers, |body|)
    }
  }

  /** Any request line and other fields can carry any body, its length spelled in any place among them. */
  lemma AnyBodyCanBeSent(r: Request, body: seq<Byte>, before: seq<Header>, after: seq<Header>)
    requires PrintableRequest(r) && r.headers == before + after && |r.headers| < 100 && |body| < U64
    requires NoLengthIn(after)
    ensures Sent(r.(headers := before + [LengthField(|body|)] + after), body).Valid()
  {
    var f := LengthField(|body|);
    var hs := before + [f] + after;
    LengthFieldPrintable(|body|);
    LengthFieldSpells(before, |body|, after);
    forall i | 0 <= i < |hs| ensures Printable(hs[i]) {
      assert i < |before| ==> hs[i] == r.headers[i];
      assert i > |before| ==> hs[i] == r.headers[i - 1];
    }
  }

  lemma LengthFieldPrintable(n: nat)
    ensures Printable(LengthField(n))
  {
    var v := PrintDecimal(n);
    forall i | 0 <= i < |v| ensures Textual(v[i]) && !Wsp(v[i]) {
      assert DecimalDigit(v[i]);
    }
    assert Ascii("Content-Length") == [67, 111, 110, 116, 101, 110, 116, 45, 76, 101, 110, 103, 116, 104];
    forall i | 0 <= i < 14 ensures Tchar(LengthField(n).name[i]) {
      Classes(LengthField(n).name[i]);
    }
  }

  ghost predicate AllValid(sent: seq<Sent>) {
    forall i | 0 <= i < |sent| :: sent[i].Valid()
  }

  ghost function Wire(sent: seq<Sent>): seq<Byte>
    requires AllValid(sent)
  {
    if sent == [] then [] else (PrintRequest(sent[0].request) + sent[0].body) + Wire(sent[1..])
  }

  function Requested(sent: seq<Sent>): (r: seq<Exchange>)
    ensures |r| == |sent|
  {
    if sent == [] then [] else
    [Exchange(sent[0].request.method_, sent[0].request.path, sent[0].body)] + Requested(sent[1..])
  }

  /** The true sequence of a stream of printed requests is those requests. */
  lemma {:induction false} WireExchanges(sent: seq<Sent>)
    requires AllValid(sent)
    ensures WellFormed(Wire(sent)) && Exchanges(Wire(sent)) == Requested(sent)
    decreases |sent|
  {
    hide PrintRequest, ParseRequest, ContentLength;
    if sent == [] {
      assert Next([]) == NeedMore by { EmptyNeedsMore(); }
    } else {
      NextOnWire(sent[0], Wire(sent[1..]));
      WireExchanges(sent[1..]);
    }
  }

  /** A request of more than 100 fields, however well formed, is refused. */
  lemma TooManyFields(f: RequestForm, tail: seq<Byte>)
    requires ValidRequest(f) && |f.block.lines| > 100
    ensures Next(PrintRequestForm(f) + tail) == Invalid
  {
    PrintedInPlace(PrintRequestForm(f), tail);
    hide PrintRequestForm, ValidRequest, ParseRequest;
    RequestAt(PrintRequestForm(f) + tail, f, MAX_HEADERS);
  }

  lemma EmptyNeedsMore()
    ensures Next([]) == NeedMore
  {
  }

  lemma NextOnWire(q: Sent, tail: seq<Byte>)
    requires q.Valid()
    ensures var s, n := (PrintRequest(q.request) + q.body) + tail, |PrintRequest(q.request) + q.body|;
            n > 0 && Next(s) == Got(Exchange(q.request.method_, q.request.path, q.body), n) && s[n..] == tail
  {
    hide PrintRequest, ParseRequest, ContentLength;
    var p := PrintRequest(q.request);
    RequestRoundTrip(q.request, q.body + tail, MAX_HEADERS);
    SpelledIsRead(q.request.headers, |q.body|);
    assert p + (q.body + tail) == (p + q.body) + tail;
    assert ((p + q.body) + tail)[|p|..|p| + |q.body|] == q.body;
  }

  /** Whatever the reads, the application sees the requests that were sent, in order and with their bodies. */
  lemma ServesWhatWasSent(sent: seq<Sent>, segments: seq<seq<Byte>>)
    requires AllValid(sent)
    requires Flatten(segments) == Wire(sent)
    ensures Due(segments) <= |sent| && After(segments).dispatched == Requested(sent)[..Due(segments)]
  {
    WireExchanges(sent);
    DispatchesInOrder(segments);
  }

  /** Well-formedness matters: what is salvaged after a malformed request depends on where the reads fall. */
  lemma MalformedDependsOnReads(q: Sent)
    requires q.Valid()
    ensures var w := Wire([q]);
            && Flatten([[0] + w]) == Flatten([[0], w])
            && After([[0] + w]).dispatched == [] && After([[0], w]).dispatched == Requested([q])
  {
    hide PrintRequest, ContentLength;
    var w := Wire([q]);
    var one: seq<seq<Byte>>, two: seq<seq<Byte>> := [[0] + w], [[0], w];
    assert Flatten(one) == [0] + w by { assert one[1..] == []; }
    assert Flatten(two) == [0] + w by { assert two[1..] == [w] && two[1..][1..] == []; }
    Rejected([0] + w);
    Rejected([0]);
    assert one[..0] == [] && IDLE.buffer + one[0] == [0] + w;
    assert two[..1] == [[0]] && two[..1][..0] == [] && IDLE.buffer + [0] == [0];
    assert After(two[..1]) == Reaction(IDLE, []);
    assert IDLE.buffer + w == w;
    WireExchanges([q]);
    assert [q][1..] == [];
    NextOnWire(q, []);
    OnMessageReacts(IDLE.(buffer := w), w);
  }

  lemma Rejected(s: seq<Byte>)
    requires s != [] && s[0] == 0
    ensures ParseRequest(s, MAX_HEADERS) == Bad
  {
  }
}
