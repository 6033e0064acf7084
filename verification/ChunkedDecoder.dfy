/** The decoder itself: an object that rewrites its caller's buffer in place. */
module ChunkedDecoder {
  import opened Bytes
  import opened ChunkedAutomaton
  import opened ChunkedMessage
  import opened ChunkedStream

  datatype Progress = Going | Stopped(verdict: Verdict)

  /** From octet `i` in state `c`, decoding gets to octet `j` in state `c'` having produced `out`. */
  ghost predicate Reaches(c: Core, trailer: bool, s: seq<Byte>, i: nat, c': Core, out: seq<Byte>, j: nat, p: Progress)
  {
    && c.Valid() && c'.Valid() && i <= j <= |s|
    && Run(c, trailer, s[i..]) ==
       if p.Going? then Run(c', trailer, s[j..]).After(out, j - i) else Report(c', out, j - i, p.verdict)
  }

  lemma ReachesHere(c: Core, trailer: bool, s: seq<Byte>, i: nat)
    requires c.Valid() && i <= |s|
    ensures Reaches(c, trailer, s, i, c, [], i, Going)
  {
    var r := Run(c, trailer, s[i..]);
    assert [] + r.out == r.out;
  }

  /** A scan that has produced nothing so far looks at its next octet, or finds there is none. */
  lemma ReachesNext(a: Core, trailer: bool, s: seq<Byte>, i: nat, c: Core, j: nat)
    requires Reaches(a, trailer, s, i, c, [], j, Going)
    ensures c.Valid()
    ensures j == |s| ==> Reaches(a, trailer, s, i, c, [], j, Stopped(More))
    ensures j < |s| ==>
              var o := Step(c, trailer, s[j]);
              && (o.Next? && o.out == [] ==> Reaches(a, trailer, s, i, o.core, [], j + 1, Going))
              && (o.Done? ==> Reaches(a, trailer, s, i, o.core, [], j + 1, Stopped(Complete)))
              && (o.Fail? ==> Reaches(a, trailer, s, i, o.core, [], j, Stopped(Malformed)))
  {
    if j < |s| {
      assert s[j..][1..] == s[j + 1..];
      var o := Step(c, trailer, s[j]);
      if o.Next? && o.out == [] {
        AfterAfter(Run(o.core, trailer, s[j + 1..]), [], 1, [], j - i);
      }
    }
  }

  lemma ReachesTrans(a: Core, trailer: bool, s: seq<Byte>, i: nat, b: Core, o: seq<Byte>, j: nat,
                     c: Core, o': seq<Byte>, k: nat, p: Progress)
    requires Reaches(a, trailer, s, i, b, o, j, Going) && Reaches(b, trailer, s, j, c, o', k, p)
    ensures Reaches(a, trailer, s, i, c, o + o', k, p)
  {
    if p == Going {
      AfterAfter(Run(c, trailer, s[k..]), o', k - j, o, j - i);
    }
  }

  /** Composition when the later stretch ran on a buffer that agrees only from `j` on. */
  lemma ReachesFrom(a: Core, trailer: bool, s: seq<Byte>, b: Core, o: seq<Byte>, j: nat,
                    s': seq<Byte>, c: Core, o': seq<Byte>, k: nat, p: Progress)
    requires Reaches(a, trailer, s, 0, b, o, j, Going) && Reaches(b, trailer, s', j, c, o', k, p)
    requires |s'| == |s| && s'[j..] == s[j..]
    ensures Reaches(a, trailer, s, 0, c, o + o', k, p) && c.Valid()
  {
    assert s[k..] == s[j..][k - j..];
    assert s'[k..] == s'[j..][k - j..];
    ReachesTrans(a, trailer, s, 0, b, o, j, c, o', k, p);
  }

  lemma ReachesData(c: Core, trailer: bool, s: seq<Byte>, i: nat, n: nat)
    requires c.Valid() && c.phase == Data && n <= c.left && i + n <= |s|
    ensures n == c.left ==> Reaches(c, trailer, s, i, Core(DataCR, 0, 0), s[i..i + n], i + n, Going)
    ensures n < c.left && i + n == |s| ==>
              Reaches(c, trailer, s, i, c.(left := c.left - n), s[i..i + n], i + n, Stopped(More))
  {
    assert s[i..] == s[i..i + n] + s[i + n..];
    RunData(c.left, trailer, s[i..i + n]);
    RunConcat(c, trailer, s[i..i + n], s[i + n..]);
    if i + n == |s| {
      assert s[i..] == s[i..i + n];
    }
  }

  lemma ReachesWhole(a: Core, trailer: bool, s: seq<Byte>, c: Core, out: seq<Byte>, j: nat, p: Progress)
    requires Reaches(a, trailer, s, 0, c, out, j, p) && p.Stopped?
    ensures a.Valid() && c.Valid() && Run(a, trailer, s) == Report(c, out, j, p.verdict)
  {
    assert s[0..] == s;
  }

  /** The decoded octets and the remainder of a call. */
  lemma SettleAll(m: Meter, s: seq<Byte>, r: Report)
    requires r.used <= |s| && (r.verdict == More ==> r.used == |s|)
    ensures Settle(m, s, r).out == r.out && Settle(m, s, r).rest == s[r.used..]
  {
  }

  class Decoder {
    var bytesLeftInChunk: nat
    var consumeTrailer: bool
    var hexCount: nat
    var phase: Phase
    var totalRead: nat
    var totalOverhead: nat

    ghost function State(): Core
      reads this
    {
      Core(phase, bytesLeftInChunk, hexCount)
    }

    ghost function Value(): Meter
      reads this
    {
      Meter(State(), consumeTrailer, totalRead, totalOverhead)
    }

    constructor (consumeTrailer: bool)
      ensures Value() == Meter(START, consumeTrailer, 0, 0) && State().Valid()
    {
      this.consumeTrailer := consumeTrailer;
      bytesLeftInChunk, hexCount, phase, totalRead, totalOverhead := 0, 0, Size, 0, 0;
    }

    /** One call: the buffer's first octets become the decoded data, followed by what is left undecoded. */
    method Decode(buf: array<Byte>, bufsz: nat) returns (ret: int, size: nat)
      requires State().Valid() && bufsz <= buf.Length
      modifies this, buf
      ensures State().Valid()
      ensures var c := Call(old(Value()), old(buf[..bufsz]));
              && Value() == c.meter && ret == c.ret && size == |c.out|
              && size + |c.rest| <= bufsz
              && buf[..size] == c.out && buf[size..size + |c.rest|] == c.rest
      ensures buf[bufsz..] == old(buf[bufsz..])
    {
      hide Run, Settle, CutOff;
      ghost var m, input := Value(), buf[..bufsz];
      totalRead := Wrap64(totalRead + bufsz);
      var src, verdict;
      size, src, verdict := Consume(buf, bufsz);
      ghost var r := Report(State(), buf[..size], src, verdict);
      assert buf[src..src + (bufsz - src)] == input[src..];
      SettleAll(m, input, r);
      MoveDown(buf, size, src, bufsz - src);
      ret := Account(bufsz, src, size, verdict, m, input, r);
    }

    /** The return code and the overhead of a call that read `bufsz` octets and decoded `size`. */
    method Account(bufsz: nat, src: nat, size: nat, verdict: Verdict,
                   ghost m: Meter, ghost s: seq<Byte>, ghost r: Report)
      returns (ret: int)
      requires size <= src <= bufsz == |s| && r == Report(State(), r.out, src, verdict) && |r.out| == size
      requires Value() == Meter(State(), m.trailer, Wrap64(m.read + bufsz), m.overhead)
      modifies this`totalOverhead
      ensures Value() == Settle(m, s, r).meter && ret == Settle(m, s, r).ret
    {
      hide CutOff;
      ret := if verdict == Complete then bufsz - src else if verdict == More then -2 else -1;
      if ret == -2 {
        totalOverhead := Wrap64(totalOverhead + bufsz - size);
        if CutOff(totalRead, totalOverhead) {
          ret := -1;
        }
      }
    }

    /** The decoding loop: at most what was read has been rewritten, and nothing unread is touched. */
    method Consume(buf: array<Byte>, bufsz: nat) returns (dst: nat, src: nat, verdict: Verdict)
      requires State().Valid() && bufsz <= buf.Length
      modifies this`bytesLeftInChunk, this`hexCount, this`phase, buf
      ensures State().Valid() && dst <= src <= bufsz
      ensures Run(old(State()), consumeTrailer, old(buf[..bufsz])) == Report(State(), buf[..dst], src, verdict)
      ensures buf[src..bufsz] == old(buf[src..bufsz]) && buf[bufsz..] == old(buf[bufsz..])
    {
      hide Reaches;
      ghost var start, input := State(), buf[..bufsz];
      ReachesHere(start, consumeTrailer, input, 0);
      dst, src := 0, 0;
      var p := Going;
      while p == Going
        invariant dst <= src <= bufsz
        invariant Reaches(start, consumeTrailer, input, 0, State(), buf[..dst], src, p)
        invariant p == Going ==> State().Valid()
        invariant buf[src..bufsz] == input[src..] && buf[bufsz..] == old(buf[bufsz..])
        decreases bufsz - src, p == Going, phase == Size
      {
        ghost var c, s, j, o := State(), buf[..bufsz], src, buf[..dst];
        assert s[j..] == input[j..];
        src, dst, p := Advance(buf, bufsz, src, dst);
        ReachesFrom(start, consumeTrailer, input, c, o, j, s, State(), buf[|o|..dst], src, p);
        assert buf[..dst] == o + buf[|o|..dst];
      }
      ReachesWhole(start, consumeTrailer, input, State(), buf[..dst], src, p);
      verdict := p.verdict;
    }

    /** One turn of the loop, for whatever phase the decoder is in. */
    method Advance(buf: array<Byte>, bufsz: nat, src: nat, dst: nat) returns (src': nat, dst': nat, p: Progress)
      requires State().Valid() && dst <= src <= bufsz <= buf.Length
      modifies this`bytesLeftInChunk, this`hexCount, this`phase, buf
      ensures src <= src' <= bufsz && dst <= dst' <= src'
      ensures buf[..dst] == old(buf[..dst])
      ensures buf[src'..bufsz] == old(buf[src'..bufsz]) && buf[bufsz..] == old(buf[bufsz..])
      ensures Reaches(old(State()), consumeTrailer, old(buf[..bufsz]), src, State(), buf[dst..dst'], src', p)
      ensures p == Going ==> src' > src || (old(phase) == Size && phase == Ext)
    {
      hide Reaches;
      if phase == Data {
        src', dst', p := TakeData(buf, bufsz, src, dst);
      } else {
        src', p := Scan(buf, bufsz, src);
        dst' := dst;
        assert buf[dst..dst'] == [];
      }
    }

    /** memmove towards the front of the buffer. */
    static method MoveDown(buf: array<Byte>, dst: nat, src: nat, n: nat)
      requires dst <= src && src + n <= buf.Length
      modifies buf
      ensures buf[..dst] == old(buf[..dst])
      ensures buf[dst..dst + n] == old(buf[src..src + n])
      ensures buf[src + n..] == old(buf[src + n..])
    {
      if dst != src {
        forall i | 0 <= i < n {
          buf[dst + i] := buf[src + i];
        }
      }
    }

    /** CHUNKED_IN_CHUNK_DATA: move as much of the chunk as there is. */
    method TakeData(buf: array<Byte>, bufsz: nat, src: nat, dst: nat) returns (src': nat, dst': nat, p: Progress)
      requires State().Valid() && phase == Data && dst <= src <= bufsz <= buf.Length
      modifies this`bytesLeftInChunk, this`phase, buf
      ensures src <= src' <= bufsz && dst' == dst + src' - src
      ensures buf[..dst] == old(buf[..dst])
      ensures buf[src'..bufsz] == old(buf[src'..bufsz]) && buf[bufsz..] == old(buf[bufsz..])
      ensures Reaches(old(State()), consumeTrailer, old(buf[..bufsz]), src, State(), buf[dst..dst'], src', p)
      ensures p == Going ==> src' > src
    {
      hide Reaches;
      var avail := bufsz - src;
      var n := if avail < bytesLeftInChunk then avail else bytesLeftInChunk;
      ReachesData(State(), consumeTrailer, buf[..bufsz], src, n);
      assert buf[..bufsz][src..src + n] == buf[src..src + n];
      ghost var unread := buf[src + n..];
      MoveDown(buf, dst, src, n);
      src', dst' := src + n, dst + n;
      assert unread == buf[src'..];
      assert buf[src'..bufsz] == unread[..bufsz - src'] && buf[bufsz..] == unread[bufsz - src'..];
      assert old(buf[src'..bufsz]) == unread[..bufsz - src'] && old(buf[bufsz..]) == unread[bufsz - src'..];
      if avail < bytesLeftInChunk {
        bytesLeftInChunk := bytesLeftInChunk - avail;
        p := Stopped(More);
      } else {
        bytesLeftInChunk := 0;
        phase := DataCR;
        p := Going;
      }
    }

    /** The phases that produce no output. */
    method Scan(buf: array<Byte>, bufsz: nat, src: nat) returns (src': nat, p: Progress)
      requires State().Valid() && phase != Data && src <= bufsz <= buf.Length
      modifies this`bytesLeftInChunk, this`hexCount, this`phase
      ensures src <= src' <= bufsz
      ensures Reaches(old(State()), consumeTrailer, buf[..bufsz], src, State(), [], src', p)
      ensures p == Going ==> src' > src || (old(phase) == Size && phase == Ext)
      ensures p == Stopped(More) ==> src' == bufsz
    {
      hide Reaches;
      if phase == Size {
        src', p := ScanSize(buf, bufsz, src);
      } else if phase == Ext {
        src', p := ScanExt(buf, bufsz, src);
      } else if phase == TrailerHead {
        src', p := ScanTrailerHead(buf, bufsz, src);
      } else if phase == TrailerMiddle {
        src', p := ScanTrailerMiddle(buf, bufsz, src);
      } else {
        src', p := ScanOne(buf, bufsz, src);
      }
    }

    method ScanSize(buf: array<Byte>, bufsz: nat, src: nat) returns (src': nat, p: Progress)
      requires State().Valid() && phase == Size && src <= bufsz <= buf.Length
      modifies this`bytesLeftInChunk, this`hexCount, this`phase
      ensures src <= src' <= bufsz
      ensures Reaches(old(State()), consumeTrailer, buf[..bufsz], src, State(), [], src', p)
      ensures p == Going ==> phase == Ext
      ensures p == Stopped(More) ==> src' == bufsz
    {
      hide Reaches, Step, DecodeHex, EndsSize, Pow16;
      ghost var c, s := State(), buf[..bufsz];
      src' := src;
      ReachesHere(c, consumeTrailer, s, src);
      while true
        invariant src <= src' <= bufsz && phase == Size && State().Valid()
        invariant Reaches(c, consumeTrailer, s, src, State(), [], src', Going)
        decreases bufsz - src'
      {
        ReachesNext(c, consumeTrailer, s, src, State(), src');
        if src' == bufsz {
          return src', Stopped(More);
        }
        SizeStep(State(), consumeTrailer, buf[src']);
        var v := DecodeHex(buf[src']);
        if v == -1 {
          if hexCount == 0 || !EndsSize(buf[src']) {
            return src', Stopped(Malformed);
          }
          break;
        }
        if hexCount == MAX_HEX {
          return src', Stopped(Malformed);
        }
        bytesLeftInChunk := bytesLeftInChunk * 16 + v;
        hexCount := hexCount + 1;
        src' := src' + 1;
      }
      ReachesExt(c, consumeTrailer, s, src, State(), src');
      hexCount := 0;
      phase := Ext;
      p := Going;
    }

    method ScanExt(buf: array<Byte>, bufsz: nat, src: nat) returns (src': nat, p: Progress)
      requires State().Valid() && phase == Ext && src <= bufsz <= buf.Length
      modifies this`phase
      ensures src <= src' <= bufsz
      ensures Reaches(old(State()), consumeTrailer, buf[..bufsz], src, State(), [], src', p)
      ensures p == Going ==> src' > src
      ensures p == Stopped(More) ==> src' == bufsz
    {
      hide Reaches;
      ghost var c, s := State(), buf[..bufsz];
      src' := src;
      ReachesHere(c, consumeTrailer, s, src);
      while true
        invariant src <= src' <= bufsz && State() == c
        invariant Reaches(c, consumeTrailer, s, src, State(), [], src', Going)
        decreases bufsz - src'
      {
        ReachesNext(c, consumeTrailer, s, src, State(), src');
        if src' == bufsz {
          return src', Stopped(More);
        }
        if buf[src'] == CR {
          break;
        } else if buf[src'] == LF {
          return src', Stopped(Malformed);
        }
        src' := src' + 1;
      }
      src' := src' + 1;
      phase := HeaderLF;
      p := Going;
    }

    /** The three phases that look at a single octet. */
    method ScanOne(buf: array<Byte>, bufsz: nat, src: nat) returns (src': nat, p: Progress)
      requires State().Valid() && phase in {HeaderLF, DataCR, DataLF} && src <= bufsz <= buf.Length
      modifies this`phase
      ensures src <= src' <= bufsz
      ensures Reaches(old(State()), consumeTrailer, buf[..bufsz], src, State(), [], src', p)
      ensures p == Going ==> src' > src
      ensures p == Stopped(More) ==> src' == bufsz
    {
      hide Reaches;
      ReachesHere(State(), consumeTrailer, buf[..bufsz], src);
      ReachesNext(State(), consumeTrailer, buf[..bufsz], src, State(), src);
      if src == bufsz {
        return src, Stopped(More);
      }
      if buf[src] != (if phase == DataCR then CR else LF) {
        return src, Stopped(Malformed);
      }
      src', p := src + 1, Going;
      if phase == DataCR {
        phase := DataLF;
      } else if phase == DataLF {
        phase := Size;
      } else if bytesLeftInChunk > 0 {
        phase := Data;
      } else if consumeTrailer {
        phase := TrailerHead;
      } else {
        p := Stopped(Complete);
      }
    }

    method ScanTrailerHead(buf: array<Byte>, bufsz: nat, src: nat) returns (src': nat, p: Progress)
      requires State().Valid() && phase == TrailerHead && src <= bufsz <= buf.Length
      modifies this`phase
      ensures src <= src' <= bufsz
      ensures Reaches(old(State()), consumeTrailer, buf[..bufsz], src, State(), [], src', p)
      ensures p == Going ==> src' > src
      ensures p == Stopped(More) ==> src' == bufsz
    {
      hide Reaches;
      ghost var c, s := State(), buf[..bufsz];
      src' := src;
      ReachesHere(c, consumeTrailer, s, src);
      while true
        invariant src <= src' <= bufsz && State() == c
        invariant Reaches(c, consumeTrailer, s, src, State(), [], src', Going)
        decreases bufsz - src'
      {
        ReachesNext(c, consumeTrailer, s, src, State(), src');
        if src' == bufsz {
          return src', Stopped(More);
        }
        if buf[src'] != CR {
          break;
        }
        src' := src' + 1;
      }
      src' := src' + 1;
      if buf[src' - 1] == LF {
        return src', Stopped(Complete);
      }
      phase := TrailerMiddle;
      p := Going;
    }

    method ScanTrailerMiddle(buf: array<Byte>, bufsz: nat, src: nat) returns (src': nat, p: Progress)
      requires State().Valid() && phase == TrailerMiddle && src <= bufsz <= buf.Length
      modifies this`phase
      ensures src <= src' <= bufsz
      ensures Reaches(old(State()), consumeTrailer, buf[..bufsz], src, State(), [], src', p)
      ensures p == Going ==> src' > src
      ensures p == Stopped(More) ==> src' == bufsz
    {
      hide Reaches;
      ghost var c, s := State(), buf[..bufsz];
      src' := src;
      ReachesHere(c, consumeTrailer, s, src);
      while true
        invariant src <= src' <= bufsz && State() == c
        invariant Reaches(c, consumeTrailer, s, src, State(), [], src', Going)
        decreases bufsz - src'
      {
        ReachesNext(c, consumeTrailer, s, src, State(), src');
        if src' == bufsz {
          return src', Stopped(More);
        }
        if buf[src'] == LF {
          break;
        }
        src' := src' + 1;
      }
      src' := src' + 1;
      phase := TrailerHead;
      p := Going;
    }
  }

  /** At the octet that ends a size, the size phase and the extension phase behave alike. */
  /** What an octet does while a size is read, unless it ends it. */
  lemma SizeStep(c: Core, trailer: bool, b: Byte)
    requires c.Valid() && c.phase == Size
    ensures DecodeHex(b) == -1 && (c.hex == 0 || !EndsSize(b)) ==> Step(c, trailer, b) == Fail(c)
    ensures DecodeHex(b) != -1 ==>
              Step(c, trailer, b) ==
              if c.hex == MAX_HEX then Fail(c) else Next(Core(Size, c.left * 16 + DecodeHex(b), c.hex + 1), [])
  {
  }

  lemma ReachesExt(a: Core, trailer: bool, s: seq<Byte>, i: nat, c: Core, j: nat)
    requires Reaches(a, trailer, s, i, c, [], j, Going) && j < |s|
    requires c.phase == Size && c.hex > 0 && DecodeHex(s[j]) == -1 && EndsSize(s[j])
    ensures Reaches(a, trailer, s, i, Core(Ext, c.left, 0), [], j, Going)
  {
    Pow16Monotone(c.hex, MAX_HEX);
    assert Step(c, trailer, s[j..][0]) == Step(Core(Ext, c.left, 0), trailer, s[j..][0]);
  }
}
