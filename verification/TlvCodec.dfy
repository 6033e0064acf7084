/** The length-prefixed message codec: an 11-octet packed header and a body, over a segmented stream. */
module TlvCodec {
  import opened Bytes
  import opened Buffers

  const HEADER_SIZE: nat := 11
  const MAGIC: seq<Byte> := [0x12, 0x34, 0x56, 0x78]

  datatype Message = Message(kind: nat, body: seq<Byte>)

  /** A message on the wire; the sender never sets the version octet, so it is arbitrary. */
  datatype Frame = Frame(version: Byte, message: Message) {
    ghost predicate Valid() {
      message.kind < 0x1_0000 && |message.body| < U32
    }
  }

  function Be16(n: nat): (s: seq<Byte>)
    ensures |s| == 2
  {
    [(n / 0x100) % 0x100, n % 0x100]
  }

  function Be32(n: nat): (s: seq<Byte>)
    ensures |s| == 4
  {
    Be16((n / 0x1_0000) % 0x1_0000) + Be16(n % 0x1_0000)
  }

  function Read16(s: seq<Byte>): nat
    requires |s| == 2
  {
    var high: nat, low: nat := s[0], s[1];
    high * 0x100 + low
  }

  function Read32(s: seq<Byte>): nat
    requires |s| == 4
  {
    Read16(s[..2]) * 0x1_0000 + Read16(s[2..])
  }

  lemma ReadBe16(n: nat)
    ensures Read16(Be16(n)) == n % 0x1_0000
  {
  }

  /** htonl of a size cast to 32 bits keeps it modulo 2^32. */
  lemma ReadBe32(n: nat)
    ensures Read32(Be32(n)) == n % U32
  {
    var high, low := (n / 0x1_0000) % 0x1_0000, n % 0x1_0000;
    ReadBe16(high);
    ReadBe16(low);
    hide Be16, Read16;
    assert Be32(n)[..2] == Be16(high) && Be32(n)[2..] == Be16(low);
  }

  function Encode(version: Byte, m: Message): (s: seq<Byte>)
    ensures |s| == HEADER_SIZE + |m.body|
  {
    MAGIC + [version] + Be32(|m.body|) + Be16(m.kind) + m.body
  }

  /** The eleven octets of the header, one by one, and the body behind them. */
  lemma FrameLayout(version: Byte, m: Message)
    ensures var w, n := Encode(version, m), |m.body| % U32;
            && |w| == 11 + |m.body| && w[11..] == m.body
            && w[0] == 0x12 && w[1] == 0x34 && w[2] == 0x56 && w[3] == 0x78 && w[4] == version
            && BigEndian(w[5..9]) == n && BigEndian(w[9..11]) == m.kind % 0x1_0000
  {
    var w := Encode(version, m);
    ReadBe32(|m.body|);
    ReadBe16(m.kind);
    assert w[5..9] == Be32(|m.body|) && w[9..11] == Be16(m.kind);
    hide Be16;
    NetworkOrder(Be32(|m.body|));
    NetworkOrder16(Be16(m.kind));
  }

  /** Octets as the digits of a number, the first counting most. */
  function BigEndian(s: seq<Byte>): nat {
    if s == [] then 0 else
    var last: nat := s[|s| - 1];
    BigEndian(s[..|s| - 1]) * 256 + last
  }

  lemma NetworkOrder16(s: seq<Byte>)
    requires |s| == 2
    ensures Read16(s) == BigEndian(s)
  {
    assert s[..1][..0] == [];
    assert BigEndian(s[..1]) == s[0];
  }

  lemma NetworkOrder(s: seq<Byte>)
    requires |s| == 4
    ensures Read32(s) == BigEndian(s)
  {
    NetworkOrder16(s[..2]);
    assert s[..3][..2] == s[..2] && s[2..] == [s[2], s[3]];
  }

  function EncodeAll(frames: seq<Frame>): seq<Byte> {
    if frames == [] then [] else Encode(frames[0].version, frames[0].message) + EncodeAll(frames[1..])
  }

  function Messages(frames: seq<Frame>): seq<Message> {
    if frames == [] then [] else [frames[0].message] + Messages(frames[1..])
  }

  function BodyLength(s: seq<Byte>): nat
    requires |s| >= HEADER_SIZE
  {
    Read32(s[5..9])
  }

  /** What one pass over the input buffer emits and leaves; a wrong magic number stops it and asks to shut down. */
  datatype Drained = Drained(messages: seq<Message>, rest: seq<Byte>, shut: bool) {
    function After(earlier: seq<Message>): Drained {
      Drained(earlier + messages, rest, shut)
    }
  }

  /** What the front of the stream holds; a whole frame is `size` octets. */
  datatype Front = Incomplete | WrongMagic | Whole(message: Message, size: nat)

  function Look(s: seq<Byte>): (f: Front)
    ensures f.Whole? ==> HEADER_SIZE <= f.size <= |s|
  {
    if |s| < HEADER_SIZE then Incomplete
    else if s[..4] != MAGIC then WrongMagic
    else
      var n := HEADER_SIZE + BodyLength(s);
      if |s| < n then Incomplete else Whole(Message(Read16(s[9..11]), s[HEADER_SIZE..n]), n)
  }

  function Drain(s: seq<Byte>): (d: Drained)
    ensures |d.rest| <= |s| && d.shut == (Look(d.rest) == WrongMagic) && !Look(d.rest).Whole?
  {
    match Look(s)
    case Incomplete => Drained([], s, false)
    case WrongMagic => Drained([], s, true)
    case Whole(m, n) => Drain(s[n..]).After([m])
  }

  /** The handler asks to shut down exactly if what it stops at begins like no frame. */
  lemma ShutsExactly(s: seq<Byte>)
    ensures Drain(s).shut <==> |Drain(s).rest| >= 11 && Drain(s).rest[..4] != [0x12, 0x34, 0x56, 0x78]
  {
    hide Drain;
  }

  /** One turn of the handler's loop, on the buffered octets. */
  lemma DrainTurn(s: seq<Byte>)
    ensures |s| < HEADER_SIZE ==> Drain(s) == Drained([], s, false)
    ensures |s| >= HEADER_SIZE && s[..4] != MAGIC ==> Drain(s) == Drained([], s, true)
    ensures |s| >= HEADER_SIZE && s[..4] == MAGIC ==>
              var n := HEADER_SIZE + BodyLength(s);
              Drain(s) == if |s| < n then Drained([], s, false)
                          else Drain(s[n..]).After([Message(Read16(s[9..11]), s[HEADER_SIZE..n])])
  {
    LookTurn(s);
    DrainLook(s);
    hide Drain, Look, BodyLength, Read16;
  }

  lemma DrainLook(s: seq<Byte>)
    ensures Drain(s) ==
            var f := Look(s);
            if f.Incomplete? then Drained([], s, false)
            else if f.WrongMagic? then Drained([], s, true)
            else Drain(s[f.size..]).After([f.message])
  {
    hide Look;
  }

  lemma LookTurn(s: seq<Byte>)
    ensures Look(s) == if |s| < HEADER_SIZE then Incomplete else if s[..4] != MAGIC then WrongMagic else
                       var n := HEADER_SIZE + BodyLength(s);
                       if |s| < n then Incomplete else Front.Whole(Message(Read16(s[9..11]), s[HEADER_SIZE..n]), n)
  {
    hide BodyLength, Read16;
  }

  /** The message handler's loop. */
  method OnTlvMessage(buf: Buffer) returns (messages: seq<Message>, shut: bool)
    requires buf.Valid()
    modifies buf, buf.buffer
    ensures buf.Valid() && Drained(messages, buf.Contents(), shut) == Drain(old(buf.Contents()))
  {
    hide Drain, BodyLength, Read16;
    messages, shut := [], false;
    AfterNone(Drain(buf.Contents()));
    while buf.ReadableBytes() >= HEADER_SIZE
      invariant buf.Valid() && buf.buffer == old(buf.buffer)
      invariant Drain(old(buf.Contents())) == Drain(buf.Contents()).After(messages)
      decreases |buf.Contents()|
    {
      ghost var s := buf.Contents();
      DrainTurn(s);
      var header := buf.Peek();
      if header[..4] != MAGIC {
        shut := true;
        return;
      }
      var len := BodyLength(header);
      if buf.ReadableBytes() < len + HEADER_SIZE {
        return;
      }
      buf.Retrieve(HEADER_SIZE);
      var body := TakeBody(buf, s, len);
      AfterAfter(Drain(buf.Contents()), [Message(Read16(header[9..11]), body)], messages);
      messages := messages + [Message(Read16(header[9..11]), body)];
    }
    DrainTurn(buf.Contents());
  }

  method TakeBody(buf: Buffer, ghost s: seq<Byte>, len: nat) returns (body: seq<Byte>)
    requires buf.Valid() && HEADER_SIZE + len <= |s|
    requires buf.Contents() == if HEADER_SIZE < |s| then s[HEADER_SIZE..] else []
    modifies buf`readerIndex, buf`writerIndex
    ensures buf.Valid() && body == s[HEADER_SIZE..HEADER_SIZE + len] && buf.Contents() == s[HEADER_SIZE + len..]
  {
    assert buf.Contents() == s[HEADER_SIZE..];
    ghost var rest := s[HEADER_SIZE..];
    body := buf.RetrieveAllAsString(len);
    assert body == (body + buf.Contents())[..len] == rest[..len];
    assert buf.Contents() == (body + buf.Contents())[len..] == rest[len..];
  }

  lemma AfterAfter(d: Drained, a: seq<Message>, b: seq<Message>)
    ensures d.After(a).After(b) == d.After(b + a)
  {
    assert b + (a + d.messages) == (b + a) + d.messages;
  }

  /** send(): header and body gathered in a fresh buffer. */
  method Send(kind: nat, msg: seq<Byte>, version: Byte) returns (wire: seq<Byte>)
    ensures wire == Encode(version, Message(kind, msg))
  {
    var buf := new Buffer(INITIAL_SIZE);
    buf.Append(MAGIC + [version] + Be32(|msg|) + Be16(kind));
    buf.Append(msg);
    wire := buf.Peek();
  }

  /** The handler called after every arriving segment, on what the previous call left. */
  function Serve(rest: seq<Byte>, segments: seq<seq<Byte>>): Drained
    decreases |segments|
  {
    if segments == [] then Drain(rest) else
    var d := Drain(rest + segments[0]);
    Serve(d.rest, segments[1..]).After(d.messages)
  }

  lemma LookAhead(a: seq<Byte>, b: seq<Byte>)
    ensures Look(a).Whole? ==> Look(a + b) == Look(a) && (a + b)[Look(a).size..] == a[Look(a).size..] + b
  {
    if Look(a).Whole? {
      var s, n := a + b, Look(a).size;
      assert s[..4] == a[..4] && s[5..9] == a[5..9] && s[9..11] == a[9..11];
      assert s[HEADER_SIZE..n] == a[HEADER_SIZE..n];
    }
  }

  lemma {:induction false} DrainConcat(a: seq<Byte>, b: seq<Byte>)
    ensures Drain(a + b) == Drain(Drain(a).rest + b).After(Drain(a).messages)
    decreases |a|
  {
    hide Look;
    LookAhead(a, b);
    if Look(a).Whole? {
      var m, n := Look(a).message, Look(a).size;
      DrainConcat(a[n..], b);
      AfterAfter(Drain(Drain(a).rest + b), Drain(a[n..]).messages, [m]);
    } else {
      AfterNone(Drain(a + b));
    }
  }

  lemma AfterNone(d: Drained)
    ensures d.After([]) == d
  {
  }

  /** However the stream is cut into segments, the handler emits, keeps and reports the same. */
  lemma {:induction false} ServeIsDrain(rest: seq<Byte>, segments: seq<seq<Byte>>)
    ensures Serve(rest, segments) == Drain(rest + Flatten(segments))
    decreases |segments|
  {
    if segments == [] {
      assert rest + Flatten(segments) == rest;
    } else {
      var a := rest + segments[0];
      var d := Drain(a);
      ServeIsDrain(d.rest, segments[1..]);
      DrainConcat(a, Flatten(segments[1..]));
      assert rest + Flatten(segments) == a + Flatten(segments[1..]);
    }
  }

  lemma HeaderFields(version: Byte, m: Message, tail: seq<Byte>)
    requires m.kind < 0x1_0000
    ensures var s := Encode(version, m) + tail;
            && s[..4] == MAGIC && BodyLength(s) == |m.body| % U32 && Read16(s[9..11]) == m.kind
            && s[HEADER_SIZE..] == m.body + tail
  {
    var s := Encode(version, m) + tail;
    ReadBe32(|m.body|);
    assert s[..4] == MAGIC && s[5..9] == Be32(|m.body|) && s[9..11] == Be16(m.kind);
  }

  lemma LookFrame(f: Frame, tail: seq<Byte>)
    requires f.Valid()
    ensures var w := Encode(f.version, f.message);
            Look(w + tail) == Whole(f.message, |w|) && (w + tail)[|w|..] == tail
  {
    hide Encode;
    var s, b := Encode(f.version, f.message) + tail, f.message.body;
    HeaderFields(f.version, f.message, tail);
    assert s[HEADER_SIZE..HEADER_SIZE + |b|] == s[HEADER_SIZE..][..|b|] == b;
  }

  /** Part of one frame, but not all of it. */
  ghost predicate Unfinished(s: seq<Byte>) {
    exists f: Frame :: f.Valid() && s < Encode(f.version, f.message)
  }

  lemma LookUnfinished(s: seq<Byte>)
    requires Unfinished(s)
    ensures Look(s) == Incomplete
  {
    hide Encode;
    var f: Frame :| f.Valid() && s < Encode(f.version, f.message);
    if |s| >= HEADER_SIZE {
      var w := Encode(f.version, f.message);
      HeaderFields(f.version, f.message, []);
      assert w + [] == w && s[..4] == w[..4] && s[5..9] == w[5..9];
    }
  }

  lemma {:induction false} DrainFrames(frames: seq<Frame>, part: seq<Byte>)
    requires (forall i | 0 <= i < |frames| :: frames[i].Valid()) && Unfinished(part)
    ensures Drain(EncodeAll(frames) + part) == Drained(Messages(frames), part, false)
    decreases |frames|
  {
    hide Look, Encode, Drain;
    var s := EncodeAll(frames) + part;
    DrainLook(s);
    if frames == [] {
      assert s == part;
      LookUnfinished(part);
    } else {
      var f, later := frames[0], EncodeAll(frames[1..]) + part;
      var w := Encode(f.version, f.message);
      assert s == w + later;
      LookFrame(f, later);
      DrainFrames(frames[1..], part);
    }
  }

  /** Any frames with the beginning of another, in any segmentation, arrive complete and in order. */
  lemma FramesArrive(frames: seq<Frame>, part: seq<Byte>, segments: seq<seq<Byte>>)
    requires (forall i | 0 <= i < |frames| :: frames[i].Valid()) && Unfinished(part)
    requires Flatten(segments) == EncodeAll(frames) + part
    ensures Serve([], segments) == Drained(Messages(frames), part, false)
  {
    ServeIsDrain([], segments);
    assert [] + Flatten(segments) == Flatten(segments);
    DrainFrames(frames, part);
  }

  /** Nothing is lost or invented: the stream is the emitted messages' frames followed by what is left. */
  lemma {:induction false} DrainConserves(s: seq<Byte>) returns (frames: seq<Frame>)
    ensures forall i | 0 <= i < |frames| :: frames[i].Valid()
    ensures s == EncodeAll(frames) + Drain(s).rest && Messages(frames) == Drain(s).messages
    decreases |s|
  {
    hide Look, Encode;
    if Look(s).Whole? {
      var f := FirstFrame(s);
      var later := DrainConserves(s[Look(s).size..]);
      frames := [f] + later;
      assert frames[1..] == later;
      assert s == Encode(f.version, f.message) + (EncodeAll(later) + Drain(s).rest);
    } else {
      frames := [];
    }
  }

  lemma FirstFrame(s: seq<Byte>) returns (f: Frame)
    requires Look(s).Whole?
    ensures f.Valid() && f.message == Look(s).message
    ensures s == Encode(f.version, f.message) + s[Look(s).size..]
  {
    var n := BodyLength(s);
    f := Frame(s[4], Look(s).message);
    BeRead32(s[5..9]);
    BeRead16(s[9..11]);
    assert s[..HEADER_SIZE] == MAGIC + [s[4]] + Be32(n) + Be16(f.message.kind);
    assert s == s[..HEADER_SIZE] + s[HEADER_SIZE..HEADER_SIZE + n] + s[HEADER_SIZE + n..];
  }

  lemma BeRead16(s: seq<Byte>)
    requires |s| == 2
    ensures Read16(s) < 0x1_0000 && Be16(Read16(s)) == s
  {
  }

  lemma BeRead32(s: seq<Byte>)
    requires |s| == 4
    ensures Read32(s) < U32 && Be32(Read32(s)) == s
  {
    var high, low := Read16(s[..2]), Read16(s[2..]);
    BeRead16(s[..2]);
    BeRead16(s[2..]);
    hide Be16, Read16;
    Halves(high, low);
    assert s == s[..2] + s[2..];
  }

  lemma Halves(high: nat, low: nat)
    requires high < 0x1_0000 && low < 0x1_0000
    ensures var n := high * 0x1_0000 + low; n < U32 && (n / 0x1_0000) % 0x1_0000 == high && n % 0x1_0000 == low
  {
  }

  /** What is sent decodes to itself exactly when the body's size survives the cast to 32 bits. */
  lemma SendRoundTrip(version: Byte, m: Message)
    requires m.kind < 0x1_0000
    ensures Drain(Encode(version, m)) == Drained([m], [], false) <==> |m.body| < U32
  {
    hide Encode;
    var w := Encode(version, m);
    assert w + [] == w;
    if |m.body| < U32 {
      LookFrame(Frame(version, m), []);
    } else {
      HeaderFields(version, m, []);
      assert |m.body| % U32 < |m.body|;
      assert Look(w).message.body != m.body;
    }
  }
}
