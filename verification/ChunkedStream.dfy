/** Successive decoder calls on a segmented stream: accounting, the overhead cut-off, split invariance. */
module ChunkedStream {
  import opened Bytes
  import opened ChunkedAutomaton
  import opened ChunkedMessage

  const OVERHEAD_LIMIT := 100 * 1024

  /** A decoder between two calls; `read` and `overhead` are its 64-bit running totals. */
  datatype Meter = Meter(core: Core, trailer: bool, read: nat, overhead: nat)

  /** One call's effect: return code, decoded octets, and the undecoded octets left behind them. */
  datatype Reply = Reply(meter: Meter, ret: int, out: seq<Byte>, rest: seq<Byte>)

  predicate CutOff(read: nat, overhead: nat) {
    overhead >= OVERHEAD_LIMIT && Wrap64(read - overhead) < read / 4
  }

  function Call(m: Meter, s: seq<Byte>): Reply
    requires m.core.Valid()
  {
    Settle(m, s, Run(m.core, m.trailer, s))
  }

  /** The bookkeeping at the end of a call for which the automaton reported `r`. */
  function Settle(m: Meter, s: seq<Byte>, r: Report): Reply
    requires r.used <= |s|
  {
    var read := Wrap64(m.read + |s|);
    if r.verdict == More then
      var overhead := Wrap64(m.overhead + |s| - |r.out|);
      Reply(Meter(r.core, m.trailer, read, overhead), if CutOff(read, overhead) then -1 else -2, r.out, [])
    else
      Reply(Meter(r.core, m.trailer, read, m.overhead),
            if r.verdict == Complete then |s| - r.used else -1, r.out, s[r.used..])
  }

  /** What a caller collects from a series of calls. */
  datatype Transcript = Transcript(out: seq<Byte>, verdict: Verdict, rest: seq<Byte>)

  /** Calls the decoder on one piece after another for as long as it answers -2. */
  function Feed(m: Meter, pieces: seq<seq<Byte>>): Transcript
    requires m.core.Valid()
    decreases |pieces|
  {
    if pieces == [] then Transcript([], More, []) else
    var c := Call(m, pieces[0]);
    if c.ret == -2 then
      var t := Feed(c.meter, pieces[1..]);
      t.(out := c.out + t.out)
    else
      Transcript(c.out, if c.ret == -1 then Malformed else Complete, c.rest + Flatten(pieces[1..]))
  }

  /** What the automaton alone makes of the whole stream, however it is segmented. */
  function Whole(m: Meter, s: seq<Byte>): Transcript
    requires m.core.Valid()
  {
    var r := Run(m.core, m.trailer, s);
    Transcript(r.out, r.verdict, s[r.used..])
  }

  /** A call ending exactly after `s` would be stopped by the overhead cut-off. */
  predicate CutAfter(m: Meter, s: seq<Byte>)
    requires m.core.Valid()
  {
    var r := Run(m.core, m.trailer, s);
    var overhead := m.overhead + |s| - |r.out|;
    r.verdict == More && overhead >= OVERHEAD_LIMIT && m.read + |s| - overhead < (m.read + |s|) / 4
  }

  ghost predicate CutSomewhere(m: Meter, pieces: seq<seq<Byte>>)
    requires m.core.Valid()
  {
    exists i :: 0 < i <= |pieces| && CutAfter(m, Flatten(pieces[..i]))
  }

  /** The totals are consistent and what is still to come cannot wrap them around. */
  ghost predicate Consistent(m: Meter, incoming: nat) {
    m.core.Valid() && m.overhead <= m.read && m.read + incoming < U64
  }

  /** One call, in numbers. */
  lemma CallAccounting(m: Meter, s: seq<Byte>)
    requires Consistent(m, |s|)
    ensures var c := Call(m, s);
            && Consistent(c.meter, 0) && c.meter.read == m.read + |s|
            && (c.ret == -2 ==> c.meter.read - c.meter.overhead == m.read - m.overhead + |c.out|)
            && (Run(m.core, m.trailer, s).verdict == More ==> (c.ret == -1 <==> CutAfter(m, s)))
            && (Run(m.core, m.trailer, s).verdict != More ==> c.meter.overhead == m.overhead)
  {
  }

  /** One call on a body and what follows it returns the number of octets that follow, and leaves those. */
  lemma CallRoundTrip(m: Meter, b: Body, tail: seq<Byte>)
    requires m.core == START && b.Valid(m.trailer)
    ensures var c := Call(m, Encode(b) + tail);
            c.ret == |tail| && c.rest == tail && c.out == Content(b.chunks) && c.meter.core.Valid()
  {
    DecodesBody(m.trailer, b, tail);
    assert (Encode(b) + tail)[|Encode(b)|..] == tail;
  }

  /** The decoder after a series of calls. */
  function Called(m: Meter, pieces: seq<seq<Byte>>): (m': Meter)
    requires m.core.Valid()
    ensures m'.core.Valid()
    decreases |pieces|
  {
    if pieces == [] then m else Called(Call(m, pieces[0]).meter, pieces[1..])
  }

  /**
   * Over any series of incomplete calls, total read minus total overhead is the number of octets decoded, so the
   * subtraction in the cut-off never underflows; and an incomplete call that follows is cut off exactly when the
   * overhead has come to the limit and the octets decoded are under a quarter of those read.
   */
  lemma {:induction false} SeriesAccounting(m: Meter, pieces: seq<seq<Byte>>, s: seq<Byte>)
    requires Consistent(m, |Flatten(pieces)| + |s|) && Feed(m, pieces).verdict == More
    ensures var m', decoded := Called(m, pieces), |Feed(m, pieces).out|;
            && Consistent(m', |s|) && m'.read == m.read + |Flatten(pieces)|
            && m'.read - m'.overhead == m.read - m.overhead + decoded
            && var r := Run(m'.core, m'.trailer, s);
               r.verdict == More ==>
                 var read, kept := m'.read + |s|, m.read - m.overhead + decoded + |r.out|;
                 (Call(m', s).ret == -1 <==> read - kept >= 102400 && kept < read / 4)
    decreases |pieces|
  {
    hide Run;
    if pieces == [] {
      CallAccounting(m, s);
    } else {
      var c := Call(m, pieces[0]);
      CallAccounting(m, pieces[0]);
      SeriesAccounting(c.meter, pieces[1..], s);
    }
  }

  /** Where the first call was incomplete, later boundaries cut exactly when they do from its new state. */
  lemma CutShift(m: Meter, p: seq<Byte>, q: seq<Byte>)
    requires Consistent(m, |p| + |q|) && Run(m.core, m.trailer, p).verdict == More
    ensures CutAfter(m, p + q) == CutAfter(Call(m, p).meter, q)
  {
    hide Run, CutOff;
    RunConcat(m.core, m.trailer, p, q);
    CallAccounting(m, p);
    assert |p + q| == |p| + |q|;
  }

  lemma CutSomewhereShift(m: Meter, pieces: seq<seq<Byte>>)
    requires pieces != [] && Consistent(m, |Flatten(pieces)|)
    requires Call(m, pieces[0]).ret == -2
    ensures CutSomewhere(m, pieces) == CutSomewhere(Call(m, pieces[0]).meter, pieces[1..])
  {
    var m', rest := Call(m, pieces[0]).meter, pieces[1..];
    forall i | 0 <= i <= |rest|
      ensures CutAfter(m, Flatten(pieces[..i + 1])) == CutAfter(m', Flatten(rest[..i]))
    {
      assert pieces[..i + 1][1..] == rest[..i];
      FlattenSplit(rest, i);
      CutShift(m, pieces[0], Flatten(rest[..i]));
    }
    CallAccounting(m, pieces[0]);
    assert Flatten(pieces[..1]) == pieces[0] by { assert pieces[..1][1..] == []; }
    assert !CutAfter(m, Flatten(pieces[..1]));
    if CutSomewhere(m, pieces) {
      var i :| 0 < i <= |pieces| && CutAfter(m, Flatten(pieces[..i]));
      assert CutAfter(m', Flatten(rest[..i - 1]));
    }
    if CutSomewhere(m', rest) {
      var i :| 0 < i <= |rest| && CutAfter(m', Flatten(rest[..i]));
      assert CutAfter(m, Flatten(pieces[..i + 1]));
    }
  }

  /**
   * The exact meaning of feeding a stream piecewise: either some piece ends where the cut-off fires, and the
   * stream is rejected there, or output, verdict and remainder are those of the automaton on the whole stream.
   */
  lemma {:induction false} FeedExact(m: Meter, pieces: seq<seq<Byte>>)
    requires Consistent(m, |Flatten(pieces)|)
    ensures CutSomewhere(m, pieces) ==> Feed(m, pieces).verdict == Malformed
    ensures !CutSomewhere(m, pieces) ==> Feed(m, pieces) == Whole(m, Flatten(pieces))
    decreases |pieces|
  {
    if pieces != [] {
      CallAccounting(m, pieces[0]);
      var c := Call(m, pieces[0]);
      if c.ret == -2 {
        CutSomewhereShift(m, pieces);
        FirstPieceSuspends(m, pieces);
        FeedExact(c.meter, pieces[1..]);
      } else if Run(m.core, m.trailer, pieces[0]).verdict == More {
        assert Flatten(pieces[..1]) == pieces[0] by { assert pieces[..1][1..] == []; }
        assert CutAfter(m, Flatten(pieces[..1]));
      } else {
        FirstPieceDecides(m, pieces);
      }
    }
  }

  lemma FirstPieceSuspends(m: Meter, pieces: seq<seq<Byte>>)
    requires pieces != [] && m.core.Valid() && Call(m, pieces[0]).ret == -2
    ensures var c := Call(m, pieces[0]);
            var t := Whole(c.meter, Flatten(pieces[1..]));
            Whole(m, Flatten(pieces)) == t.(out := c.out + t.out)
  {
    hide Run;
    var p, rest := pieces[0], Flatten(pieces[1..]);
    RunConcat(m.core, m.trailer, p, rest);
    var r := Run(Call(m, p).meter.core, m.trailer, rest);
    assert (p + rest)[|p| + r.used..] == rest[r.used..];
  }

  lemma FirstPieceDecides(m: Meter, pieces: seq<seq<Byte>>)
    requires pieces != [] && Consistent(m, |Flatten(pieces)|)
    requires Run(m.core, m.trailer, pieces[0]).verdict != More
    ensures !CutSomewhere(m, pieces)
    ensures Feed(m, pieces) == Whole(m, Flatten(pieces))
  {
    var p, rest := pieces[0], Flatten(pieces[1..]);
    forall i | 0 < i <= |pieces| ensures !CutAfter(m, Flatten(pieces[..i])) {
      assert pieces[..i][1..] == pieces[1..][..i - 1];
      RunConcat(m.core, m.trailer, p, Flatten(pieces[1..][..i - 1]));
    }
    RunConcat(m.core, m.trailer, p, rest);
    var used := Run(m.core, m.trailer, p).used;
    assert (p + rest)[used..] == p[used..] + rest;
  }

  /** Piecewise feeding answers as the automaton does on the whole stream exactly when no cut-off intervenes. */
  lemma FeedVerdict(m: Meter, pieces: seq<seq<Byte>>)
    requires Consistent(m, |Flatten(pieces)|)
    ensures Feed(m, pieces).verdict == Whole(m, Flatten(pieces)).verdict
       <==> !CutSomewhere(m, pieces) || Whole(m, Flatten(pieces)).verdict == Malformed
  {
    FeedExact(m, pieces);
  }

  lemma {:induction false} OverheadGrows(c: Core, trailer: bool, a: seq<Byte>, b: seq<Byte>)
    requires c.Valid() && Run(c, trailer, a).verdict == More
    ensures var r, q := Run(c, trailer, a), Run(c, trailer, a + b);
            |a| - |r.out| <= q.used - |q.out|
  {
    RunConcat(c, trailer, a, b);
  }

  /** Split invariance: with less than 100 KB of overhead in all, the segmentation of the stream is invisible. */
  lemma SplitInvariance(m: Meter, pieces: seq<seq<Byte>>)
    requires Consistent(m, |Flatten(pieces)|)
    requires var r := Run(m.core, m.trailer, Flatten(pieces));
             m.overhead + r.used - |r.out| < 102400
    ensures Feed(m, pieces) == Feed(m, [Flatten(pieces)]) == Whole(m, Flatten(pieces))
  {
    var one := [Flatten(pieces)];
    assert Flatten(one) == Flatten(pieces) by { assert one[1..] == []; }
    forall ps: seq<seq<Byte>> | Flatten(ps) == Flatten(pieces) ensures !CutSomewhere(m, ps) {
      forall i | 0 < i <= |ps| ensures !CutAfter(m, Flatten(ps[..i])) {
        FlattenSplit(ps, i);
        if Run(m.core, m.trailer, Flatten(ps[..i])).verdict == More {
          OverheadGrows(m.core, m.trailer, Flatten(ps[..i]), Flatten(ps[i..]));
        }
      }
    }
    FeedExact(m, pieces);
    FeedExact(m, one);
  }

  /** A fresh decoder, fed any segmentation of a body and what follows it, yields the content and that tail. */
  lemma SegmentedRoundTrip(trailer: bool, b: Body, tail: seq<Byte>, pieces: seq<seq<Byte>>)
    requires b.Valid(trailer) && Flatten(pieces) == Encode(b) + tail
    requires |Encode(b)| - |Content(b.chunks)| < 102400 && |Flatten(pieces)| < U64
    ensures Feed(Meter(START, trailer, 0, 0), pieces) == Transcript(Content(b.chunks), Complete, tail)
  {
    DecodesBody(trailer, b, tail);
    SplitInvariance(Meter(START, trailer, 0, 0), pieces);
    assert (Encode(b) + tail)[|Encode(b)|..] == tail;
  }

  /** The cut-off is a real exception: some body is accepted in one piece and rejected in two. */
  lemma SplittingCanReject() returns (b: Body, pieces: seq<seq<Byte>>)
    ensures b.Valid(false) && Flatten(pieces) == Encode(b)
    ensures Whole(Meter(START, false, 0, 0), Flatten(pieces)).verdict == Complete
    ensures Feed(Meter(START, false, 0, 0), pieces).verdict == Malformed
  {
    hide Run;
    var m := Meter(START, false, 0, 0);
    b := LongExtension();
    var first := b.last.size + b.last.ext;
    pieces := [first, CRLF];
    assert Encode(b) == first + CRLF == Flatten(pieces) by {
      assert pieces[1..] == [CRLF] && pieces[1..][1..] == [];
    }
    assert Flatten(pieces[..1]) == first by { assert pieces[..1][1..] == []; }
    DecodesBody(false, b, []);
    assert Encode(b) + [] == Encode(b);
    RunConcat(START, false, first, CRLF);
    assert CutAfter(m, Flatten(pieces[..1]));
    FeedExact(m, pieces);
  }

  lemma LongExtension() returns (b: Body)
    ensures b.Valid(false) && b.chunks == [] && |b.last.ext| == OVERHEAD_LIMIT
  {
    var ext: seq<Byte> := seq(OVERHEAD_LIMIT, _ => SEMICOLON);
    assert HexDigits([48]) && HexValue([48]) == 0 by { assert [48][..0] == []; }
    b := Body([], Chunk([48], ext, []), [], []);
  }
}
