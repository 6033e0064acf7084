/** The scanning loops of the message parser, each computing its recogniser. */
module HttpScanner {
  import opened Bytes
  import opened HttpSyntax

  predicate PrintableAscii(b: Byte) {
    SP <= b < DEL
  }

  /** parse_token */
  method ParseToken(buf: seq<Byte>, start: nat, nextChar: Byte) returns (r: Parse<nat>)
    requires start <= |buf|
    ensures r == TokenEnd(buf, start, nextChar)
  {
    var pos := start;
    if pos == |buf| {
      return Partial;
    }
    while buf[pos] != nextChar
      invariant pos < |buf| && TokenEnd(buf, start, nextChar) == TokenEnd(buf, pos, nextChar)
      decreases |buf| - pos
    {
      if !TokenChar(buf[pos]) {
        return Bad;
      }
      pos := pos + 1;
      if pos == |buf| {
        return Partial;
      }
    }
    return Ok(pos);
  }

  /** ADVANCE_TOKEN */
  method AdvanceToken(buf: seq<Byte>, start: nat) returns (r: Parse<nat>)
    requires start < |buf|
    ensures r == PathEnd(buf, start)
  {
    var pos := start;
    while buf[pos] != SP
      invariant pos < |buf| && PathEnd(buf, start) == PathEnd(buf, pos)
      decreases |buf| - pos
    {
      if !PrintableAscii(buf[pos]) && (buf[pos] < SP || buf[pos] == DEL) {
        return Bad;
      }
      pos := pos + 1;
      if pos == |buf| {
        return Partial;
      }
    }
    return Ok(pos);
  }

  /** Moves past the octet at `start` and the spaces after it. */
  method NextNonSpace(buf: seq<Byte>, start: nat) returns (r: Parse<nat>)
    requires start < |buf|
    ensures r == SkipSpaces(buf, start + 1)
  {
    var pos := start + 1;
    while pos < |buf| && buf[pos] == SP
      invariant pos <= |buf| && SkipSpaces(buf, start + 1) == SkipSpaces(buf, pos)
    {
      pos := pos + 1;
    }
    return if pos == |buf| then Partial else Ok(pos);
  }

  /** get_token_to_eol: a search for the first control octet in strides of eight, finished octet by octet. */
  method GetTokenToEol(buf: seq<Byte>, start: nat) returns (r: Parse<(seq<Byte>, nat)>)
    requires start <= |buf|
    ensures r == TextLine(buf, start)
  {
    var pos, found := start, false;
    while !found && |buf| - pos >= 8
      invariant start <= pos <= |buf| && TextEnd(buf, start) == TextEnd(buf, pos)
      invariant found ==> pos < |buf| && Control(buf[pos])
      decreases |buf| - pos, !found
    {
      var k := 0;
      ghost var first := pos;
      while k < 8 && PrintableAscii(buf[pos])
        invariant k <= 8 && pos == first + k && TextEnd(buf, start) == TextEnd(buf, pos)
      {
        pos, k := pos + 1, k + 1;
      }
      if k < 8 {
        if Control(buf[pos]) {
          found := true;
        } else {
          pos := pos + 1;
        }
      }
    }
    while !found
      invariant start <= pos <= |buf| && TextEnd(buf, start) == TextEnd(buf, pos)
      invariant found ==> pos < |buf| && Control(buf[pos])
      decreases |buf| - pos, !found
    {
      if pos == |buf| {
        return Partial;
      }
      if !PrintableAscii(buf[pos]) && Control(buf[pos]) {
        found := true;
      } else {
        pos := pos + 1;
      }
    }
    if buf[pos] == CR {
      if pos + 1 == |buf| {
        return Partial;
      }
      if buf[pos + 1] != LF {
        return Bad;
      }
      return Ok((buf[start..pos], pos + 2));
    } else if buf[pos] == LF {
      return Ok((buf[start..pos], pos + 1));
    }
    return Bad;
  }

  /** Trailing blanks of a field value, dropped from the back. */
  method DropTrailingBlanks(value: seq<Byte>) returns (r: seq<Byte>)
    ensures r == TrimRight(value)
  {
    var end := |value|;
    assert value[..end] == value;
    while end > 0 && Blank(value[end - 1])
      invariant end <= |value| && TrimRight(value) == TrimRight(value[..end])
    {
      assert value[..end][..end - 1] == value[..end - 1];
      end := end - 1;
    }
    return value[..end];
  }

  method ParseEol(buf: seq<Byte>, pos: nat) returns (r: Parse<nat>)
    requires pos < |buf|
    ensures r == Eol(buf, pos)
  {
    if buf[pos] == CR {
      if pos + 1 == |buf| {
        return Partial;
      }
      return if buf[pos + 1] == LF then Ok(pos + 2) else Bad;
    }
    return if buf[pos] == LF then Ok(pos + 1) else Bad;
  }

  /** One turn of parse_headers. */
  method ParseHeaderLine(buf: seq<Byte>, pos: nat, first: bool) returns (r: Parse<(Header, nat)>)
    requires pos < |buf|
    ensures r == HeaderLine(buf, pos, first)
  {
    var name, i := [], pos;
    if first || !Blank(buf[pos]) {
      var c :- ParseToken(buf, pos, COLON);
      if c == pos {
        return Bad;
      }
      name, i := buf[pos..c], c + 1;
      while i < |buf| && Blank(buf[i])
        invariant i <= |buf| && SkipBlanks(buf, c + 1) == SkipBlanks(buf, i)
      {
        i := i + 1;
      }
      if i == |buf| {
        return Partial;
      }
    }
    var line :- GetTokenToEol(buf, i);
    var value := DropTrailingBlanks(line.0);
    return Ok((Header(name, value), line.1));
  }

  /** parse_headers */
  method ParseHeaders(buf: seq<Byte>, start: nat, maxHeaders: nat) returns (r: Parse<(seq<Header>, nat)>)
    requires start <= |buf|
    ensures r == Headers(buf, start, maxHeaders, [])
  {
    hide HeaderLine, Eol;
    var pos, headers: seq<Header> := start, [];
    while true
      invariant pos <= |buf| && |headers| <= maxHeaders
      invariant Headers(buf, start, maxHeaders, []) == Headers(buf, pos, maxHeaders - |headers|, headers)
      decreases |buf| - pos
    {
      if pos == |buf| {
        return Partial;
      }
      if LineEnd(buf[pos]) {
        var next :- ParseEol(buf, pos);
        return Ok((headers, next));
      }
      if |headers| == maxHeaders {
        return Bad;
      }
      var line :- ParseHeaderLine(buf, pos, headers == []);
      pos, headers := line.1, headers + [line.0];
    }
  }

  /** parse_http_version */
  method ParseHttpVersion(buf: seq<Byte>, pos: nat) returns (r: Parse<nat>)
    ensures r == Version(buf, pos)
  {
    if |buf| < pos + 9 {
      return Partial;
    }
    var k := 0;
    while k < 7
      invariant k <= 7 && forall j | 0 <= j < k :: buf[pos + j] == VERSION[j]
    {
      if buf[pos + k] != VERSION[k] {
        assert buf[pos..pos + 7][k] != VERSION[k];
        return Bad;
      }
      k := k + 1;
    }
    assert buf[pos..pos + 7] == VERSION;
    return if Digit(buf[pos + 7]) then Ok(buf[pos + 7] - DIGIT0) else Bad;
  }

  /** parse_request up to the version */
  method ParseMethodAndPath(buf: seq<Byte>, start: nat) returns (r: Parse<((seq<Byte>, seq<Byte>), nat)>)
    requires start <= |buf|
    ensures r == MethodAndPath(buf, start)
  {
    hide TokenEnd, SkipSpaces, PathEnd;
    var m :- ParseToken(buf, start, SP);
    var p :- NextNonSpace(buf, m);
    var q :- AdvanceToken(buf, p);
    var v :- NextNonSpace(buf, q);
    if start == m || p == q {
      return Bad;
    }
    return Ok(((buf[start..m], buf[p..q]), v));
  }

  /** parse_request */
  method ParseRequestMessage(buf: seq<Byte>, maxHeaders: nat) returns (r: Parse<Request>)
    ensures r == ParseRequest(buf, maxHeaders)
  {
    hide MethodAndPath, Version, Headers;
    if |buf| == 0 {
      return Partial;
    }
    var start := 0;
    if LineEnd(buf[0]) {
      start :- ParseEol(buf, 0);
    }
    var target :- ParseMethodAndPath(buf, start);
    var minor :- ParseHttpVersion(buf, target.1);
    var h :- ParseEol(buf, target.1 + 8);
    var block :- ParseHeaders(buf, h, maxHeaders);
    return Ok(Request(target.0.0, target.0.1, minor, block.0, block.1));
  }

  /** The status line of parse_response */
  method ParseStatusLine(buf: seq<Byte>) returns (r: Parse<((nat, nat, seq<Byte>), nat)>)
    ensures r == StatusLine(buf)
  {
    hide Version, SkipSpaces, TextLine;
    var minor :- ParseHttpVersion(buf, 0);
    if buf[8] != SP {
      return Bad;
    }
    var c :- NextNonSpace(buf, 8);
    if |buf| < c + 4 {
      return Partial;
    }
    if !Digit(buf[c]) || !Digit(buf[c + 1]) || !Digit(buf[c + 2]) {
      return Bad;
    }
    var status := 100 * (buf[c] - DIGIT0) + 10 * (buf[c + 1] - DIGIT0) + (buf[c + 2] - DIGIT0);
    var line :- GetTokenToEol(buf, c + 3);
    var msg := line.0;
    if msg != [] && msg[0] != SP {
      return Bad;
    }
    var k := 0;
    assert msg[0..] == msg;
    while k < |msg| && msg[k] == SP
      invariant k <= |msg| && TrimSpaces(msg) == TrimSpaces(msg[k..])
    {
      assert msg[k..][1..] == msg[k + 1..];
      k := k + 1;
    }
    return Ok(((minor, status, msg[k..]), line.1));
  }

  /** parse_response */
  method ParseResponseMessage(buf: seq<Byte>, maxHeaders: nat) returns (r: Parse<Response>)
    ensures r == ParseResponse(buf, maxHeaders)
  {
    var start :- ParseStatusLine(buf);
    var block :- ParseHeaders(buf, start.1, maxHeaders);
    return Ok(Response(start.0.0, start.0.1, start.0.2, block.0, block.1));
  }

  /** is_complete */
  method FindBlankLine(buf: seq<Byte>, lastLen: nat) returns (r: Parse<nat>)
    requires lastLen <= |buf|
    ensures r == IsComplete(buf, lastLen)
  {
    var start := if lastLen < 3 then 0 else lastLen - 3;
    var pos, count := start, 0;
    while true
      invariant pos <= |buf| && count < 2
      invariant BlankLineEnd(buf, start, 0) == BlankLineEnd(buf, pos, count)
      decreases |buf| - pos
    {
      if pos == |buf| {
        return Partial;
      }
      if buf[pos] == CR {
        if pos + 1 == |buf| {
          return Partial;
        }
        if buf[pos + 1] != LF {
          return Bad;
        }
        pos, count := pos + 2, count + 1;
      } else if buf[pos] == LF {
        pos, count := pos + 1, count + 1;
      } else {
        pos, count := pos + 1, 0;
      }
      if count == 2 {
        return Ok(pos);
      }
    }
  }

  /** phr_parse_request */
  method PhrParseRequest(buf: seq<Byte>, maxHeaders: nat, lastLen: nat) returns (r: Parse<Request>)
    requires lastLen <= |buf|
    ensures r == PhrRequest(buf, maxHeaders, lastLen)
  {
    if lastLen != 0 {
      var end :- FindBlankLine(buf, lastLen);
    }
    r := ParseRequestMessage(buf, maxHeaders);
  }

  /** phr_parse_response */
  method PhrParseResponse(buf: seq<Byte>, maxHeaders: nat, lastLen: nat) returns (r: Parse<Response>)
    requires lastLen <= |buf|
    ensures r == PhrResponse(buf, maxHeaders, lastLen)
  {
    if lastLen != 0 {
      var end :- FindBlankLine(buf, lastLen);
    }
    r := ParseResponseMessage(buf, maxHeaders);
  }

  /** phr_parse_headers */
  method PhrParseHeaders(buf: seq<Byte>, maxHeaders: nat, lastLen: nat) returns (r: Parse<(seq<Header>, nat)>)
    requires lastLen <= |buf|
    ensures r == PhrHeaders(buf, maxHeaders, lastLen)
  {
    if lastLen != 0 {
      var end :- FindBlankLine(buf, lastLen);
    }
    r := ParseHeaders(buf, 0, maxHeaders);
  }
}
