/** The language of chunked bodies: the decoder completes on exactly its members, and decodes them to their data. */
module ChunkedMessage {
  import opened Bytes
  import opened ChunkedAutomaton

  /**
   * `size` is any hexadecimal spelling of the length of `data`; `ext` runs up to the CRLF and is set off by a space, a
   * tab or a semicolon.
   */
  datatype Chunk = Chunk(size: seq<Byte>, ext: seq<Byte>, data: seq<Byte>)

  ghost predicate NoLineEnd(s: seq<Byte>) {
    forall i | 0 <= i < |s| :: s[i] != CR && s[i] != LF
  }

  ghost predicate SetOff(ext: seq<Byte>) {
    ext == [] || ext[0] == 32 || ext[0] == 9 || ext[0] == 59
  }

  lemma SetOffIs(ext: seq<Byte>)
    requires NoLineEnd(ext)
    ensures SetOff(ext) <==> ext == [] || EndsSize(ext[0])
  {
  }

  ghost predicate SizeLine(c: Chunk) {
    && 1 <= |c.size| <= MAX_HEX && HexDigits(c.size) && HexValue(c.size) == |c.data|
    && NoLineEnd(c.ext) && SetOff(c.ext)
  }

  ghost predicate DataChunk(c: Chunk) {
    SizeLine(c) && c.data != []
  }

  ghost predicate LastChunk(c: Chunk) {
    SizeLine(c) && c.data == []
  }

  /** A trailer line: no LF but its last octet, and some octet before that which is not CR. */
  ghost predicate TrailerLine(l: seq<Byte>) {
    && |l| >= 2 && l[|l| - 1] == LF
    && (forall i | 0 <= i < |l| - 1 :: l[i] != LF)
    && exists i :: 0 <= i < |l| - 1 && l[i] != CR
  }

  /** The line that ends the trailer section. */
  ghost predicate BlankLine(l: seq<Byte>) {
    |l| >= 1 && l[|l| - 1] == LF && forall i | 0 <= i < |l| - 1 :: l[i] == CR
  }

  /** A body: its chunks, the zero-sized last chunk, and the trailer section (empty unless it is consumed). */
  datatype Body = Body(chunks: seq<Chunk>, last: Chunk, lines: seq<seq<Byte>>, blank: seq<Byte>) {
    ghost predicate Valid(trailer: bool) {
      && (forall i | 0 <= i < |chunks| :: DataChunk(chunks[i]))
      && LastChunk(last)
      && (forall i | 0 <= i < |lines| :: TrailerLine(lines[i]))
      && (if trailer then BlankLine(blank) else lines == [] && blank == [])
    }
  }

  function Header(c: Chunk): seq<Byte> {
    c.size + c.ext + CRLF
  }

  function EncodeChunk(c: Chunk): seq<Byte> {
    Header(c) + c.data + CRLF
  }

  function EncodeChunks(chunks: seq<Chunk>): seq<Byte> {
    if chunks == [] then [] else EncodeChunk(chunks[0]) + EncodeChunks(chunks[1..])
  }

  function Encode(b: Body): seq<Byte> {
    EncodeChunks(b.chunks) + Header(b.last) + Flatten(b.lines) + b.blank
  }

  function Content(chunks: seq<Chunk>): seq<Byte> {
    if chunks == [] then [] else chunks[0].data + Content(chunks[1..])
  }

  // ----- The automaton on each piece of a body -----

  lemma {:induction false} RunExt(c: Core, trailer: bool, s: seq<Byte>)
    requires c.Valid() && c.phase == Ext && NoLineEnd(s)
    ensures Run(c, trailer, s) == Report(c, [], |s|, More)
    decreases |s|
  {
    if s != [] {
      RunExt(c, trailer, s[1..]);
    }
  }

  /** From the end of the size digits through an extension up to its CR. */
  lemma RunToHeaderEnd(c: Core, trailer: bool, ext: seq<Byte>)
    requires c.Valid() && c.phase == Size && c.hex > 0
    requires NoLineEnd(ext) && (ext == [] || EndsSize(ext[0]))
    ensures Run(c, trailer, ext + [CR]) == Report(Core(HeaderLF, c.left, 0), [], |ext| + 1, More)
  {
    var s := ext + [CR];
    if ext == [] {
      assert s[1..] == [];
    } else {
      assert Step(c, trailer, s[0]) == Next(Core(Ext, c.left, 0), []);
      var e := Core(Ext, c.left, 0);
      assert s[1..] == ext[1..] + [CR];
      RunExt(e, trailer, ext[1..]);
      RunConcat(e, trailer, ext[1..], [CR]);
      assert [CR][1..] == [];
      assert Run(e, trailer, [CR]) == Report(Core(HeaderLF, c.left, 0), [], 1, More);
    }
  }

  lemma RunHeaderLf(trailer: bool, left: nat)
    requires Core(HeaderLF, left, 0).Valid()
    ensures Run(Core(HeaderLF, left, 0), trailer, [LF]) ==
            if left > 0 then Report(Core(Data, left, 0), [], 1, More)
            else if trailer then Report(Core(TrailerHead, 0, 0), [], 1, More)
            else Report(Core(HeaderLF, 0, 0), [], 1, Complete)
  {
    assert [LF][1..] == [];
  }

  lemma RunHeader(trailer: bool, c: Chunk)
    requires SizeLine(c)
    ensures Run(START, trailer, Header(c)) ==
            if c.data != [] then Report(Core(Data, |c.data|, 0), [], |Header(c)|, More)
            else if trailer then Report(Core(TrailerHead, 0, 0), [], |Header(c)|, More)
            else Report(Core(HeaderLF, 0, 0), [], |Header(c)|, Complete)
  {
    hide Run, Step, HexDigits, NoLineEnd;
    var cr := c.ext + [CR];
    assert Header(c) == c.size + (cr + [LF]);
    SizeAccumulates(trailer, c.size);
    var k := Core(Size, |c.data|, |c.size|);
    RunConcat(START, trailer, c.size, cr + [LF]);
    RunToHeaderEnd(k, trailer, c.ext);
    RunConcat(k, trailer, cr, [LF]);
    RunHeaderLf(trailer, |c.data|);
  }

  lemma {:induction false} RunData(left: nat, trailer: bool, d: seq<Byte>)
    requires Core(Data, left, 0).Valid() && |d| <= left
    ensures Run(Core(Data, left, 0), trailer, d)
         == Report(if |d| == left then Core(DataCR, 0, 0) else Core(Data, left - |d|, 0), d, |d|, More)
    decreases |d|
  {
    if d != [] {
      assert d == [d[0]] + d[1..];
      if left > 1 {
        RunData(left - 1, trailer, d[1..]);
      }
    }
  }

  lemma RunChunkEnd(trailer: bool)
    ensures Run(Core(DataCR, 0, 0), trailer, CRLF) == Report(START, [], 2, More)
  {
    assert CRLF[1..] == [LF] && [LF][1..] == [];
    assert Run(Core(DataLF, 0, 0), trailer, [LF]) == Report(START, [], 1, More);
  }

  lemma RunChunk(trailer: bool, c: Chunk)
    requires DataChunk(c)
    ensures Run(START, trailer, EncodeChunk(c)) == Report(START, c.data, |EncodeChunk(c)|, More)
  {
    hide Run, Step, HexDigits, HexValue, NoLineEnd;
    RunHeader(trailer, c);
    RunConcat(START, trailer, Header(c), c.data);
    RunData(|c.data|, trailer, c.data);
    RunConcat(START, trailer, Header(c) + c.data, CRLF);
    RunChunkEnd(trailer);
  }

  lemma {:induction false} RunChunks(trailer: bool, chunks: seq<Chunk>)
    requires forall i | 0 <= i < |chunks| :: DataChunk(chunks[i])
    ensures Run(START, trailer, EncodeChunks(chunks)) == Report(START, Content(chunks), |EncodeChunks(chunks)|, More)
  {
    if chunks != [] {
      RunChunk(trailer, chunks[0]);
      RunChunks(trailer, chunks[1..]);
      RunConcat(START, trailer, EncodeChunk(chunks[0]), EncodeChunks(chunks[1..]));
    }
  }

  const HEAD_CORE := Core(TrailerHead, 0, 0)
  const MIDDLE_CORE := Core(TrailerMiddle, 0, 0)

  lemma {:induction false} RunMiddle(l: seq<Byte>)
    requires |l| >= 1 && l[|l| - 1] == LF && forall i | 0 <= i < |l| - 1 :: l[i] != LF
    ensures Run(MIDDLE_CORE, true, l) == Report(HEAD_CORE, [], |l|, More)
    decreases |l|
  {
    if |l| > 1 {
      RunMiddle(l[1..]);
    } else {
      assert l[1..] == [];
    }
  }

  lemma {:induction false} RunLine(l: seq<Byte>)
    requires TrailerLine(l)
    ensures Run(HEAD_CORE, true, l) == Report(HEAD_CORE, [], |l|, More)
    decreases |l|
  {
    if l[0] == CR {
      var i :| 0 <= i < |l| - 1 && l[i] != CR;
      assert l[1..][i - 1] == l[i];
      RunLine(l[1..]);
    } else {
      RunMiddle(l[1..]);
    }
  }

  lemma {:induction false} RunLines(lines: seq<seq<Byte>>)
    requires forall i | 0 <= i < |lines| :: TrailerLine(lines[i])
    ensures Run(HEAD_CORE, true, Flatten(lines)) == Report(HEAD_CORE, [], |Flatten(lines)|, More)
  {
    if lines != [] {
      RunLine(lines[0]);
      RunLines(lines[1..]);
      RunConcat(HEAD_CORE, true, lines[0], Flatten(lines[1..]));
    }
  }

  lemma {:induction false} RunBlank(l: seq<Byte>)
    requires BlankLine(l)
    ensures Run(HEAD_CORE, true, l) == Report(HEAD_CORE, [], |l|, Complete)
    decreases |l|
  {
    if |l| > 1 {
      RunBlank(l[1..]);
    }
  }

  /** Every body decodes to its content, whatever octets follow it, and none of those is consumed. */
  lemma DecodesBody(trailer: bool, b: Body, tail: seq<Byte>)
    requires b.Valid(trailer)
    ensures var r := Run(START, trailer, Encode(b) + tail);
            r.verdict == Complete && r.out == Content(b.chunks) && r.used == |Encode(b)|
  {
    hide Run, Step;
    var e := EncodeChunks(b.chunks);
    RunChunks(trailer, b.chunks);
    RunHeader(trailer, b.last);
    RunConcat(START, trailer, e, Header(b.last));
    if trailer {
      RunLines(b.lines);
      RunConcat(START, trailer, e + Header(b.last), Flatten(b.lines));
      RunBlank(b.blank);
      RunConcat(START, trailer, e + Header(b.last) + Flatten(b.lines), b.blank);
    } else {
      assert Encode(b) == e + Header(b.last);
    }
    RunConcat(START, trailer, Encode(b), tail);
  }

  // ----- And only bodies complete -----

  /** A completing run reads an octet, accepts it, and completes from the state that leads to. */
  lemma FirstOctet(c: Core, trailer: bool, s: seq<Byte>) returns (b: Byte, rest: seq<Byte>)
    requires c.Valid() && Run(c, trailer, s).verdict == Complete
    ensures s == [b] + rest && !Step(c, trailer, b).Fail?
    ensures var o := Step(c, trailer, b);
            o.Next? ==> Run(c, trailer, s) == Run(o.core, trailer, rest).After(o.out, 1)
  {
    b, rest := s[0], s[1..];
  }

  lemma {:induction false} TakeDigits(s: seq<Byte>) returns (digits: seq<Byte>, rest: seq<Byte>)
    ensures s == digits + rest && HexDigits(digits)
    ensures rest != [] ==> DecodeHex(rest[0]) < 0
  {
    if s == [] || DecodeHex(s[0]) < 0 {
      digits, rest := [], s;
    } else {
      digits, rest := TakeDigits(s[1..]);
      digits := [s[0]] + digits;
    }
  }

  lemma {:induction false} TakeLine(s: seq<Byte>) returns (line: seq<Byte>, rest: seq<Byte>)
    ensures s == line + rest && NoLineEnd(line)
    ensures rest != [] ==> rest[0] == CR || rest[0] == LF
  {
    if s == [] || s[0] == CR || s[0] == LF {
      line, rest := [], s;
    } else {
      line, rest := TakeLine(s[1..]);
      line := [s[0]] + line;
    }
  }

  lemma {:induction false} TakeToLf(s: seq<Byte>) returns (line: seq<Byte>, rest: seq<Byte>)
    ensures s == line + rest && forall i | 0 <= i < |line| :: line[i] != LF
    ensures rest != [] ==> rest[0] == LF
  {
    if s == [] || s[0] == LF {
      line, rest := [], s;
    } else {
      line, rest := TakeToLf(s[1..]);
      line := [s[0]] + line;
    }
  }

  /** After the size, a completing run finds a CR before any LF. */
  lemma ExtEnds(c: Core, trailer: bool, ext: seq<Byte>, rest: seq<Byte>)
    requires c.Valid() && c.phase == Size && c.hex > 0
    requires NoLineEnd(ext) && (rest != [] ==> rest[0] == CR || rest[0] == LF)
    requires ext + rest != [] ==> DecodeHex((ext + rest)[0]) < 0
    requires Run(c, trailer, ext + rest).verdict == Complete
    ensures rest != [] && rest[0] == CR && (ext == [] || EndsSize(ext[0]))
  {
    var b, later := FirstOctet(c, trailer, ext + rest);
    if ext == [] {
      assert ext + rest == rest;
    } else {
      var e := Core(Ext, c.left, 0);
      assert ext[0] == b && later == ext[1..] + rest;
      RunExt(e, trailer, ext[1..]);
      RunConcat(e, trailer, ext[1..], rest);
      var b', rest' := FirstOctet(e, trailer, rest);
    }
  }

  /** The octet between an extension's CR and the data, in a completing run. */
  lemma LfOf(left: nat, trailer: bool, s: seq<Byte>) returns (rest: seq<Byte>)
    requires Core(HeaderLF, left, 0).Valid() && Run(Core(HeaderLF, left, 0), trailer, s).verdict == Complete
    ensures s == [LF] + rest
  {
    var b;
    b, rest := FirstOctet(Core(HeaderLF, left, 0), trailer, s);
  }

  lemma ExtOf(c: Core, trailer: bool, s: seq<Byte>) returns (ext: seq<Byte>, rest: seq<Byte>)
    requires c.Valid() && c.phase == Size && c.hex > 0
    requires s != [] ==> DecodeHex(s[0]) < 0
    requires Run(c, trailer, s).verdict == Complete
    ensures s == ext + CRLF + rest && NoLineEnd(ext) && (ext == [] || EndsSize(ext[0]))
  {
    hide Run, Step, NoLineEnd, EndsSize, DecodeHex;
    var end;
    ext, end := TakeLine(s);
    ExtEnds(c, trailer, ext, end);
    RunToHeaderEnd(c, trailer, ext);
    var after := end[1..];
    assert s == (ext + [CR]) + after;
    RunConcat(c, trailer, ext + [CR], after);
    rest := LfOf(c.left, trailer, after);
    assert (ext + [CR]) + ([LF] + rest) == ext + CRLF + rest;
  }

  lemma SizeOf(trailer: bool, s: seq<Byte>) returns (size: seq<Byte>, rest: seq<Byte>)
    requires Run(START, trailer, s).verdict == Complete
    ensures s == size + rest && (rest != [] ==> DecodeHex(rest[0]) < 0)
    ensures 1 <= |size| <= MAX_HEX && HexDigits(size) && Core(Size, HexValue(size), |size|).Valid()
    ensures Run(Core(Size, HexValue(size), |size|), trailer, rest).verdict == Complete
  {
    size, rest := TakeDigits(s);
    SizeAccumulates(trailer, size);
    RunConcat(START, trailer, size, rest);
    if size == [] {
      assert s == rest;
      var b, r := FirstOctet(START, trailer, s);
    }
  }

  lemma HeaderOf(trailer: bool, s: seq<Byte>) returns (size: seq<Byte>, ext: seq<Byte>, rest: seq<Byte>)
    requires Run(START, trailer, s).verdict == Complete
    ensures 1 <= |size| <= MAX_HEX && HexDigits(size)
    ensures NoLineEnd(ext) && (ext == [] || EndsSize(ext[0]))
    ensures s == size + ext + CRLF + rest
  {
    hide Run, Step, HexDigits, NoLineEnd;
    var later;
    size, later := SizeOf(trailer, s);
    ext, rest := ExtOf(Core(Size, HexValue(size), |size|), trailer, later);
    assert size + ext + CRLF + rest == size + (ext + CRLF + rest);
  }

  lemma DataOf(left: nat, trailer: bool, s: seq<Byte>) returns (data: seq<Byte>, rest: seq<Byte>)
    requires Core(Data, left, 0).Valid() && Run(Core(Data, left, 0), trailer, s).verdict == Complete
    ensures s == data + CRLF + rest && |data| == left
    ensures Run(Core(Data, left, 0), trailer, s) == Run(START, trailer, rest).After(data, left + 2)
  {
    var n := if |s| < left then |s| else left;
    data := s[..n];
    assert s == data + s[n..];
    RunData(left, trailer, data);
    RunConcat(Core(Data, left, 0), trailer, data, s[n..]);
    rest := ChunkEndOf(trailer, s[n..]);
    AfterAfter(Run(START, trailer, rest), [], 2, data, left);
    assert data + [] == data;
    assert s == data + (CRLF + rest) == data + CRLF + rest;
  }

  lemma ChunkEndOf(trailer: bool, s: seq<Byte>) returns (rest: seq<Byte>)
    requires Run(Core(DataCR, 0, 0), trailer, s).verdict == Complete
    ensures s == CRLF + rest
    ensures Run(Core(DataCR, 0, 0), trailer, s) == Run(START, trailer, rest).After([], 2)
  {
    hide Pow16;
    var b, r := FirstOctet(Core(DataCR, 0, 0), trailer, s);
    b, rest := FirstOctet(Core(DataLF, 0, 0), trailer, r);
    assert s == CRLF + rest;
    RunChunkEnd(trailer);
    RunConcat(Core(DataCR, 0, 0), trailer, CRLF, rest);
  }

  lemma {:induction false} NoLfNoEnd(c: Core, s: seq<Byte>)
    requires c == HEAD_CORE || c == MIDDLE_CORE
    requires forall i | 0 <= i < |s| :: s[i] != LF
    ensures Run(c, true, s).verdict == More
    decreases |s|
  {
    if s != [] {
      NoLfNoEnd(Step(c, true, s[0]).core, s[1..]);
    }
  }

  lemma FirstLineOf(s: seq<Byte>) returns (line: seq<Byte>, rest: seq<Byte>)
    requires Run(HEAD_CORE, true, s).verdict == Complete
    ensures s == line + rest && (TrailerLine(line) || BlankLine(line))
  {
    hide Run, Step;
    var body, end := TakeToLf(s);
    if end == [] {
      assert s == body;
      NoLfNoEnd(HEAD_CORE, s);
      assert false;
    }
    line, rest := body + [LF], end[1..];
    assert TrailerLine(line) || BlankLine(line) by {
      assert forall i | 0 <= i < |body| :: line[i] == body[i];
    }
  }

  lemma {:induction false} TrailerOf(s: seq<Byte>) returns (lines: seq<seq<Byte>>, blank: seq<Byte>, rest: seq<Byte>)
    requires Run(HEAD_CORE, true, s).verdict == Complete
    ensures forall i | 0 <= i < |lines| :: TrailerLine(lines[i])
    ensures BlankLine(blank)
    ensures s == Flatten(lines) + blank + rest
    decreases |s|
  {
    hide Run, Step;
    var line, end := FirstLineOf(s);
    hide BlankLine;
    if TrailerLine(line) {
      RunLine(line);
      RunConcat(HEAD_CORE, true, line, end);
      hide TrailerLine;
      var later;
      later, blank, rest := TrailerOf(end);
      lines := [line] + later;
      assert lines[1..] == later;
      assert line + (Flatten(later) + blank + rest) == line + Flatten(later) + blank + rest;
    } else {
      lines, blank, rest := [], line, end;
      assert [] + blank + rest == blank + rest;
    }
  }

  /** Whatever the decoder completes on is a body, which is all it decodes and consumes, and a tail. */
  lemma {:induction false} OnlyBodiesComplete(trailer: bool, s: seq<Byte>) returns (b: Body, tail: seq<Byte>)
    requires Run(START, trailer, s).verdict == Complete
    ensures b.Valid(trailer) && s == Encode(b) + tail
    ensures var r := Run(START, trailer, s); r.out == Content(b.chunks) && r.used == |Encode(b)|
    decreases |s|
  {
    b, tail := BodyOf(trailer, s);
    DecodesBody(trailer, b, tail);
  }

  lemma {:induction false} BodyOf(trailer: bool, s: seq<Byte>) returns (b: Body, tail: seq<Byte>)
    requires Run(START, trailer, s).verdict == Complete
    ensures b.Valid(trailer) && s == Encode(b) + tail
    decreases |s|
  {
    hide Run, Step;
    var c, rest := FirstChunk(trailer, s);
    if c.data == [] {
      b, tail := EndOf(trailer, c, rest);
    } else {
      var later;
      later, tail := BodyOf(trailer, rest);
      b := later.(chunks := [c] + later.chunks);
      hide Encode, EncodeChunk;
      EncodeCons(c, later);
      assert EncodeChunk(c) + (Encode(later) + tail) == EncodeChunk(c) + Encode(later) + tail;
    }
  }

  lemma FirstChunk(trailer: bool, s: seq<Byte>) returns (c: Chunk, rest: seq<Byte>)
    requires Run(START, trailer, s).verdict == Complete
    ensures SizeLine(c)
    ensures c.data == [] ==> s == Header(c) + rest
    ensures c.data != [] ==> s == EncodeChunk(c) + rest && Run(START, trailer, rest).verdict == Complete
  {
    hide Run, Step, HexDigits, HexValue, NoLineEnd;
    var size, ext, later := HeaderOf(trailer, s);
    SetOffIs(ext);
    c, rest := Chunk(size, ext, []), later;
    if HexValue(size) > 0 {
      HeaderThenData(trailer, size, ext, later);
      var data;
      data, rest := DataOf(HexValue(size), trailer, later);
      c := Chunk(size, ext, data);
      assert s == Header(c) + (data + CRLF + rest) == EncodeChunk(c) + rest;
    }
  }

  lemma EncodeCons(c: Chunk, b: Body)
    ensures Encode(b.(chunks := [c] + b.chunks)) == EncodeChunk(c) + Encode(b)
  {
    var cs := [c] + b.chunks;
    assert cs[1..] == b.chunks;
    var first := EncodeChunk(c);
    assert first + EncodeChunks(b.chunks) + Header(b.last) + Flatten(b.lines) + b.blank
        == first + (EncodeChunks(b.chunks) + Header(b.last) + Flatten(b.lines) + b.blank);
  }

  lemma EndOf(trailer: bool, last: Chunk, rest: seq<Byte>) returns (b: Body, tail: seq<Byte>)
    requires LastChunk(last) && Run(START, trailer, Header(last) + rest).verdict == Complete
    ensures b.Valid(trailer) && b.chunks == [] && Header(last) + rest == Encode(b) + tail
  {
    hide Run, Step, SizeLine, TrailerLine, BlankLine;
    RunHeader(trailer, last);
    RunConcat(START, trailer, Header(last), rest);
    var h := Header(last);
    hide Header;
    var lines: seq<seq<Byte>>, blank: seq<Byte> := [], [];
    tail := rest;
    if trailer {
      lines, blank, tail := TrailerOf(rest);
    }
    b := Body([], last, lines, blank);
    assert EncodeChunks([]) + h == h;
    assert h + (Flatten(lines) + blank + tail) == h + Flatten(lines) + blank + tail;
  }

  lemma HeaderThenData(trailer: bool, size: seq<Byte>, ext: seq<Byte>, rest: seq<Byte>)
    requires 1 <= |size| <= MAX_HEX && HexDigits(size) && HexValue(size) > 0
    requires NoLineEnd(ext) && (ext == [] || EndsSize(ext[0]))
    ensures Core(Data, HexValue(size), 0).Valid()
    ensures Run(START, trailer, size + ext + CRLF + rest)
         == Run(Core(Data, HexValue(size), 0), trailer, rest).After([], |size + ext + CRLF|)
  {
    var c := Chunk(size, ext, seq(HexValue(size), _ => 0));
    RunHeader(trailer, c);
    RunConcat(START, trailer, Header(c), rest);
  }
}
