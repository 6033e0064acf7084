/** What the incremental message parser recognises (sections 3 to 5 of RFC 9112), as functions of the buffer. */
module HttpSyntax {
  import opened Bytes

  const COLON: Byte := 58
  const DEL: Byte := 127
  const DIGIT0: Byte := 48
  const DIGIT9: Byte := 57
  const VERSION: seq<Byte> := [72, 84, 84, 80, 47, 49, 46]  // "HTTP/1."

  /** `Partial` is the sources' -2 (more input may help), `Bad` their -1 (none will). */
  datatype Parse<+T> = Ok(value: T) | Partial | Bad {
    predicate IsFailure() {
      !Ok?
    }

    function PropagateFailure<U>(): Parse<U>
      requires IsFailure()
    {
      if Partial? then Parse.Partial else Parse.Bad
    }

    function Extract(): T
      requires Ok?
    {
      value
    }
  }

  /** A header field; a continuation line of the previous one has an empty name. */
  datatype Header = Header(name: seq<Byte>, value: seq<Byte>)

  datatype Request = Request(method_: seq<Byte>, path: seq<Byte>, minor: nat, headers: seq<Header>, length: nat)

  datatype Response = Response(minor: nat, status: nat, message: seq<Byte>, headers: seq<Header>, length: nat)

  predicate Digit(b: Byte) {
    DIGIT0 <= b <= DIGIT9
  }

  /** token_char_map: letters, digits and !#$%&'*+-.^_`|~ */
  predicate TokenChar(b: Byte) {
    || Digit(b) || 65 <= b <= 90 || 94 <= b <= 122
    || b == 33 || 35 <= b <= 39 || b == 42 || b == 43 || b == 45 || b == 46 || b == 124 || b == 126
  }

  predicate Blank(b: Byte) {
    b == SP || b == HT
  }

  predicate LineEnd(b: Byte) {
    b == CR || b == LF
  }

  predicate Control(b: Byte) {
    (b < SP && b != HT) || b == DEL
  }

  /** An end of line at `i`: CRLF or a bare LF. */
  function Eol(s: seq<Byte>, i: nat): (r: Parse<nat>)
    ensures r.Ok? ==> i < r.value <= i + 2 && r.value <= |s| && LineEnd(s[i]) && s[r.value - 1] == LF
  {
    if i >= |s| then Partial
    else if s[i] == LF then Ok(i + 1)
    else if s[i] != CR then Bad
    else if i + 1 == |s| then Partial
    else if s[i + 1] == LF then Ok(i + 2) else Bad
  }

  /** Where the token starting at `i` ends: at the first `stop`. */
  function TokenEnd(s: seq<Byte>, i: nat, stop: Byte): (r: Parse<nat>)
    ensures r.Ok? ==> i <= r.value < |s| && s[r.value] == stop && forall j | i <= j < r.value :: TokenChar(s[j])
    decreases |s| - i
  {
    if i >= |s| then Partial
    else if s[i] == stop then Ok(i)
    else if !TokenChar(s[i]) then Bad
    else TokenEnd(s, i + 1, stop)
  }

  function SkipSpaces(s: seq<Byte>, i: nat): (r: Parse<nat>)
    ensures !r.Bad? && (r.Ok? ==> i <= r.value < |s| && s[r.value] != SP && forall j | i <= j < r.value :: s[j] == SP)
    decreases |s| - i
  {
    if i >= |s| then Partial else if s[i] == SP then SkipSpaces(s, i + 1) else Ok(i)
  }

  function SkipBlanks(s: seq<Byte>, i: nat): (r: Parse<nat>)
    ensures !r.Bad?
    ensures r.Ok? ==> i <= r.value < |s| && !Blank(s[r.value]) && forall j | i <= j < r.value :: Blank(s[j])
    decreases |s| - i
  {
    if i >= |s| then Partial else if Blank(s[i]) then SkipBlanks(s, i + 1) else Ok(i)
  }

  /** Where the request target starting at `i` ends: at the first space. */
  function PathEnd(s: seq<Byte>, i: nat): (r: Parse<nat>)
    ensures r.Ok? ==> i <= r.value < |s| && s[r.value] == SP && forall j | i <= j < r.value :: s[j] > SP
    decreases |s| - i
  {
    if i >= |s| then Partial
    else if s[i] == SP then Ok(i)
    else if s[i] < SP || s[i] == DEL then Bad
    else PathEnd(s, i + 1)
  }

  /** Where the text starting at `i` ends: at the first control octet. */
  function TextEnd(s: seq<Byte>, i: nat): (r: Parse<nat>)
    ensures !r.Bad?
    ensures r.Ok? ==> i <= r.value < |s| && Control(s[r.value]) && forall j | i <= j < r.value :: !Control(s[j])
    decreases |s| - i
  {
    if i >= |s| then Partial else if Control(s[i]) then Ok(i) else TextEnd(s, i + 1)
  }

  /** The text from `i` to the end of its line, and where the next line starts. */
  function TextLine(s: seq<Byte>, i: nat): (r: Parse<(seq<Byte>, nat)>)
    ensures r.Ok? ==> i < r.value.1 <= |s|
  {
    var e :- TextEnd(s, i);
    var n :- Eol(s, e);
    Ok((s[i..e], n))
  }

  /** "HTTP/1.x" at `i`, provided an octet follows it. */
  function Version(s: seq<Byte>, i: nat): (r: Parse<nat>)
    ensures r.Ok? ==> i + 9 <= |s| && Digit(s[i + 7]) && r.value == s[i + 7] - DIGIT0
    ensures r.Ok? ==> forall j | i <= j < i + 8 :: !LineEnd(s[j])
  {
    if |s| < i + 9 then Partial
    else if s[i..i + 7] == VERSION && Digit(s[i + 7]) then
      assert forall j | i <= j < i + 7 :: s[j] == VERSION[j - i];
      Ok(s[i + 7] - DIGIT0)
    else Bad
  }

  function TrimRight(v: seq<Byte>): (r: seq<Byte>)
    ensures r <= v && (r != [] ==> !Blank(r[|r| - 1])) && forall j | |r| <= j < |v| :: Blank(v[j])
  {
    if v != [] && Blank(v[|v| - 1]) then TrimRight(v[..|v| - 1]) else v
  }

  function TrimSpaces(v: seq<Byte>): (r: seq<Byte>)
    ensures r != [] ==> r[0] != SP
  {
    if v != [] && v[0] == SP then TrimSpaces(v[1..]) else v
  }

  function Field(s: seq<Byte>, name: seq<Byte>, i: nat): (r: Parse<(Header, nat)>)
    ensures r.Ok? ==> i < r.value.1 <= |s| && r.value.0.name == name
  {
    var (v, n) :- TextLine(s, i);
    Ok((Header(name, TrimRight(v)), n))
  }

  /** One header line; unless it is the first, a line starting with a blank continues the one before. */
  function HeaderLine(s: seq<Byte>, i: nat, first: bool): (r: Parse<(Header, nat)>)
    requires i < |s|
    ensures r.Ok? ==> i < r.value.1 <= |s|
  {
    if !first && Blank(s[i]) then Field(s, [], i) else
    var c :- TokenEnd(s, i, COLON);
    if c == i then Bad else
    var v :- SkipBlanks(s, c + 1);
    Field(s, s[i..c], v)
  }

  function Headers(s: seq<Byte>, i: nat, max: nat, acc: seq<Header>): (r: Parse<(seq<Header>, nat)>)
    ensures r.Ok? ==> i < r.value.1 <= |s| && acc <= r.value.0 && |r.value.0| <= |acc| + max
    decreases |s| - i
  {
    if i >= |s| then Partial
    else if LineEnd(s[i]) then
      var n :- Eol(s, i);
      Ok((acc, n))
    else if max == 0 then Bad
    else
      var (h, n) :- HeaderLine(s, i, acc == []);
      Headers(s, n, max - 1, acc + [h])
  }

  /** Clients may send an empty line before a request. */
  function LeadingLine(s: seq<Byte>): Parse<nat> {
    if s == [] then Partial else if LineEnd(s[0]) then Eol(s, 0) else Ok(0)
  }

  /** Method and target from `m`, and where the version starts. */
  function MethodAndPath(s: seq<Byte>, m: nat): (r: Parse<((seq<Byte>, seq<Byte>), nat)>)
    ensures r.Ok? ==> m < r.value.1 < |s|
  {
    var m' :- TokenEnd(s, m, SP);
    var p :- SkipSpaces(s, m' + 1);
    var p' :- PathEnd(s, p);
    var v :- SkipSpaces(s, p' + 1);
    if m == m' || p == p' then Bad else Ok(((s[m..m'], s[p..p']), v))
  }

  /** The version that ends a request line, and where the next line starts. */
  function VersionLine(s: seq<Byte>, v: nat): (r: Parse<(nat, nat)>)
    ensures r.Ok? ==> v + 8 < r.value.1 <= |s|
  {
    var minor :- Version(s, v);
    var h :- Eol(s, v + 8);
    Ok((minor, h))
  }

  function ParseRequest(s: seq<Byte>, max: nat): (r: Parse<Request>)
    ensures r.Ok? ==> 0 < r.value.length <= |s| && |r.value.headers| <= max
  {
    var m :- LeadingLine(s);
    var ((method_, path), v) :- MethodAndPath(s, m);
    var (minor, h) :- VersionLine(s, v);
    var (headers, n) :- Headers(s, h, max, []);
    Ok(Request(method_, path, minor, headers, n))
  }

  function Status(s: seq<Byte>, i: nat): (r: Parse<nat>)
    ensures r.Ok? ==> i + 4 <= |s| && r.value < 1000 && forall j | i <= j < i + 3 :: Digit(s[j])
  {
    if |s| < i + 4 then Partial
    else if Digit(s[i]) && Digit(s[i + 1]) && Digit(s[i + 2]) then
      Ok(100 * (s[i] - DIGIT0) + 10 * (s[i + 1] - DIGIT0) + (s[i + 2] - DIGIT0))
    else Bad
  }

  /** Version, status and message, and where the next line starts. */
  function StatusLine(s: seq<Byte>): (r: Parse<((nat, nat, seq<Byte>), nat)>)
    ensures r.Ok? ==> 12 < r.value.1 <= |s|
  {
    var minor :- Version(s, 0);
    if s[8] != SP then Bad else
    var c :- SkipSpaces(s, 9);
    var status :- Status(s, c);
    var (msg, h) :- TextLine(s, c + 3);
    if msg != [] && msg[0] != SP then Bad else Ok(((minor, status, TrimSpaces(msg)), h))
  }

  function ParseResponse(s: seq<Byte>, max: nat): (r: Parse<Response>)
    ensures r.Ok? ==> 0 < r.value.length <= |s| && |r.value.headers| <= max
  {
    var ((minor, status, message), h) :- StatusLine(s);
    var (headers, n) :- Headers(s, h, max, []);
    Ok(Response(minor, status, message, headers, n))
  }

  /** The early-out scan from `i`: the end of the first two adjacent line ends, `count` of them just behind. */
  function BlankLineEnd(s: seq<Byte>, i: nat, count: nat): (r: Parse<nat>)
    requires count < 2
    ensures r.Ok? ==> i < r.value <= |s|
    decreases |s| - i
  {
    if i < |s| && !LineEnd(s[i]) then BlankLineEnd(s, i + 1, 0) else
    var n :- Eol(s, i);
    if count == 1 then Ok(n) else BlankLineEnd(s, n, 1)
  }

  function IsComplete(s: seq<Byte>, lastLen: nat): Parse<nat> {
    BlankLineEnd(s, if lastLen < 3 then 0 else lastLen - 3, 0)
  }

  /** The entry points: with a non-zero `lastLen` the early-out is consulted first. */
  function PhrRequest(s: seq<Byte>, max: nat, lastLen: nat): Parse<Request> {
    if lastLen == 0 then ParseRequest(s, max) else
    var end :- IsComplete(s, lastLen);
    ParseRequest(s, max)
  }

  function PhrResponse(s: seq<Byte>, max: nat, lastLen: nat): Parse<Response> {
    if lastLen == 0 then ParseResponse(s, max) else
    var end :- IsComplete(s, lastLen);
    ParseResponse(s, max)
  }

  function PhrHeaders(s: seq<Byte>, max: nat, lastLen: nat): Parse<(seq<Header>, nat)> {
    if lastLen == 0 then Headers(s, 0, max, []) else
    var end :- IsComplete(s, lastLen);
    Headers(s, 0, max, [])
  }
}
