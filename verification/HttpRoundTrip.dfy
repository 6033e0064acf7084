/** Parsing what was printed in the usual form: single spaces, CRLF, no optional blanks but one behind each colon. */
module HttpRoundTrip {
  import opened Bytes
  import opened HttpSyntax
  import opened HttpGrammar

  ghost predicate Printable(h: Header) {
    && h.name != [] && All(h.name, Tchars) && All(h.value, Text)
    && (h.value != [] ==> !Wsp(h.value[0]) && !Wsp(h.value[|h.value| - 1]))
  }

  ghost predicate AllPrintable(hs: seq<Header>) {
    forall i | 0 <= i < |hs| :: Printable(hs[i])
  }

  ghost predicate PrintableRequest(r: Request) {
    && r.method_ != [] && All(r.method_, Tchars) && r.path != [] && All(r.path, Targets)
    && r.minor < 10 && AllPrintable(r.headers)
  }

  ghost predicate PrintableResponse(r: Response) {
    && r.minor < 10 && r.status < 1000 && All(r.message, Text) && (r.message != [] ==> !Space(r.message[0]))
    && AllPrintable(r.headers)
  }

  function LinesOf(hs: seq<Header>): seq<Line> {
    if hs == [] then [] else [Line(hs[0].name, [32], hs[0].value, [], [13, 10])] + LinesOf(hs[1..])
  }

  function BlockOfHeaders(hs: seq<Header>): Block {
    Block(LinesOf(hs), [13, 10])
  }

  function RequestFormOf(r: Request): RequestForm {
    RequestForm([], r.method_, [32], r.path, [32], r.minor, [13, 10], BlockOfHeaders(r.headers))
  }

  function ResponseFormOf(r: Response): ResponseForm {
    ResponseForm(r.minor, [32], r.status, [32], r.message, [13, 10], BlockOfHeaders(r.headers))
  }

  function PrintRequest(r: Request): seq<Byte>
    requires r.minor < 10
  {
    PrintRequestForm(RequestFormOf(r))
  }

  function PrintResponse(r: Response): seq<Byte>
    requires r.minor < 10 && r.status < 1000
  {
    PrintResponseForm(ResponseFormOf(r))
  }

  lemma {:induction false} HeadersForm(hs: seq<Header>, first: bool)
    requires AllPrintable(hs)
    ensures ValidLines(LinesOf(hs), first) && Meanings(LinesOf(hs)) == hs
  {
    if hs != [] {
      var l := Line(hs[0].name, [32], hs[0].value, [], [13, 10]);
      assert Printable(hs[0]);
      assert ValidLine(l, first);
      HeadersForm(hs[1..], false);
      assert LinesOf(hs)[1..] == LinesOf(hs[1..]);
    }
  }

  /** A printed request, whatever follows it in the buffer, parses to its own fields and printed length. */
  lemma RequestRoundTrip(r: Request, tail: seq<Byte>, max: nat)
    requires PrintableRequest(r) && |r.headers| <= max
    ensures ParseRequest(PrintRequest(r) + tail, max) == Ok(r.(length := |PrintRequest(r)|))
  {
    RequestFormValid(r);
    hide *;
    PrintedInPlace(PrintRequest(r), tail);
    PrintsForm(r);
    RequestAt(PrintRequest(r) + tail, RequestFormOf(r), max);
  }

  lemma RequestFormValid(r: Request)
    requires PrintableRequest(r)
    ensures var f := RequestFormOf(r); ValidRequest(f) && RequestOf(f) == r.(length := |PrintRequest(r)|)
    ensures |RequestFormOf(r).block.lines| == |r.headers|
  {
    HeadersForm(r.headers, true);
  }

  lemma PrintsForm(r: Request)
    requires r.minor < 10
    ensures PrintRequest(r) == PrintRequestForm(RequestFormOf(r)) && RequestFormOf(r).minor == r.minor
  {
  }

  lemma PrintedInPlace(w: seq<Byte>, tail: seq<Byte>)
    ensures At(w + tail, 0, w)
  {
  }

  /** So does a printed response: version, status, message and fields. */
  lemma ResponseRoundTrip(r: Response, tail: seq<Byte>, max: nat)
    requires PrintableResponse(r) && |r.headers| <= max
    ensures ParseResponse(PrintResponse(r) + tail, max) == Ok(r.(length := |PrintResponse(r)|))
  {
    HeadersForm(r.headers, true);
    var f := ResponseFormOf(r);
    assert ValidResponse(f);
    assert ResponseOf(f) == r.(length := |PrintResponse(r)|);
    PrintedInPlace(PrintResponse(r), tail);
    hide PrintResponseForm, ParseResponse, ValidResponse, All;
    ResponseAt(PrintResponse(r) + tail, f, max);
  }
}
