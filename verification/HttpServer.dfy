/** The server side of a connection: the parser object, the collected body, and the message callback. */
module HttpServer {
  import opened Bytes
  import opened Buffers
  import opened HttpSyntax
  import opened HttpLength
  import opened HttpFraming
  import Scanner = HttpScanner

  datatype State = ExpectHeaders | ExpectBody | GotAll

  class HttpParser {
    var state: State
    var gotAll: bool
    var method_: seq<Byte>
    var path: seq<Byte>
    var headers: seq<Header>
    var headerLen: nat
    var contentLength: nat
    var bodyBytesRead: nat

    constructor ()
      ensures state == ExpectHeaders && contentLength == 0 && bodyBytesRead == 0
    {
      state, gotAll, method_, path, headers := ExpectHeaders, false, [], [], [];
      headerLen, contentLength, bodyBytesRead := 0, 0, 0;
    }

    /** parseRequest: true once the header block is complete; a malformed one empties the buffer. */
    method ParseRequest(buf: Buffer) returns (ok: bool)
      requires buf.Valid() && state == ExpectHeaders && contentLength == 0
      modifies this, buf`readerIndex, buf`writerIndex
      ensures buf.Valid() && bodyBytesRead == old(bodyBytesRead)
      ensures var p := HttpSyntax.ParseRequest(old(buf.Contents()), MAX_HEADERS);
              && ok == p.Ok?
              && (p.Partial? ==> buf.Contents() == old(buf.Contents()))
              && (p.Bad? ==> buf.Contents() == [])
              && (!ok ==> state == ExpectHeaders && contentLength == 0)
              && (ok ==> Parsed(p.value) && buf.Contents() == old(buf.Contents()))
              && gotAll == (if ok then state == GotAll else if p.Partial? then false else old(gotAll))
    {
      hide HttpSyntax.ParseRequest, ContentLength;
      var data := buf.Peek();
      var result := Scanner.PhrParseRequest(data, MAX_HEADERS, 0);
      if result.Ok? {
        var r := result.value;
        headerLen, method_, path, headers := r.length, r.method_, r.path, r.headers;
        var length := LengthOfBody(r.headers);
        if length > 0 {
          contentLength := length;
          state := ExpectBody;
          gotAll := false;
        } else {
          state := GotAll;
          gotAll := true;
        }
        return true;
      } else if result.Partial? {
        gotAll := false;
        return false;
      } else {
        buf.RetrieveAll();
        return false;
      }
    }

    ghost predicate Parsed(r: Request)
      reads this
    {
      && headerLen == r.length && method_ == r.method_ && path == r.path && headers == r.headers
      && contentLength == ContentLength(r.headers)
      && state == (if contentLength > 0 then ExpectBody else GotAll)
    }

    method ConsumeBody(buf: Buffer, n: nat)
      requires buf.Valid() && n <= |buf.Contents()|
      modifies this`bodyBytesRead, this`state, this`gotAll, buf`readerIndex, buf`writerIndex
      ensures buf.Valid() && buf.Contents() == old(buf.Contents())[n..]
      ensures bodyBytesRead == old(bodyBytesRead) + n
      ensures state == if bodyBytesRead >= contentLength then GotAll else old(state)
      ensures gotAll == if bodyBytesRead >= contentLength then true else old(gotAll)
    {
      bodyBytesRead := bodyBytesRead + n;
      if bodyBytesRead >= contentLength {
        state := GotAll;
        gotAll := true;
      }
      buf.Retrieve(n);
    }

    method Reset()
      modifies this
      ensures state == ExpectHeaders && contentLength == 0 && bodyBytesRead == 0
      ensures !gotAll && method_ == [] && path == [] && headers == [] && headerLen == 0
    {
      state, gotAll, method_, path, headers := ExpectHeaders, false, [], [], [];
      headerLen, contentLength, bodyBytesRead := 0, 0, 0;
    }
  }

  /** The loop over the headers in parseRequest. */
  method LengthOfBody(headers: seq<Header>) returns (length: nat)
    ensures length == ContentLength(headers)
  {
    length := 0;
    var i := 0;
    while i < |headers|
      invariant i <= |headers| && length == ContentLength(headers[..i])
    {
      assert headers[..i + 1][..i] == headers[..i];
      if IsContentLength(headers[i].name) {
        length := FromChars(headers[i].value, length);
      }
      i := i + 1;
    }
    assert headers[..i] == headers;
  }

  /** ConnState with the requests handed to the application so far. */
  class Connection {
    const parser: HttpParser
    var body: seq<Byte>
    var dispatched: seq<Exchange>

    ghost predicate Valid()
      reads this, parser
    {
      && parser.state != GotAll
      && parser.bodyBytesRead == |body|
      && (parser.state == ExpectHeaders ==> parser.contentLength == 0)
      && Conn(Phase(), body, []).Valid()
    }

    ghost function Phase(): Phase
      reads this, parser
    {
      if parser.state == ExpectHeaders then BetweenRequests
      else InBody(parser.method_, parser.path, parser.contentLength)
    }

    /** The connection together with what its input buffer holds. */
    ghost function Value(buffer: seq<Byte>): Conn
      reads this, parser
    {
      Conn(Phase(), body, buffer)
    }

    constructor ()
      ensures Valid() && fresh(parser) && Value([]) == IDLE && dispatched == []
    {
      parser := new HttpParser();
      body, dispatched := [], [];
    }

    /** onMessage: the buffer has grown. */
    method OnMessage(buf: Buffer)
      requires Valid() && buf.Valid()
      modifies this, parser, buf`readerIndex, buf`writerIndex
      ensures Valid() && buf.Valid()
      ensures old(dispatched) <= dispatched
      ensures Reaction(Value(buf.Contents()), dispatched[|old(dispatched)|..])
           == HttpFraming.OnMessage(old(Value(buf.Contents())))
    {
      hide HttpSyntax.ParseRequest, ContentLength;
      if parser.state == ExpectBody {
        CollectBody(buf);
        return;
      }
      ghost var before := buf.Contents();
      var ok := parser.ParseRequest(buf);
      if ok {
        ghost var r := HttpSyntax.ParseRequest(before, MAX_HEADERS).value;
        buf.Retrieve(parser.headerLen);
        assert buf.Contents() == before[r.length..];
        if parser.state == ExpectBody {
          CollectBody(buf);
        } else {
          Dispatch();
        }
      } else {
        assert dispatched[|dispatched|..] == [];
      }
    }

    /** collectBody */
    method CollectBody(buf: Buffer)
      requires Valid() && buf.Valid() && parser.state == ExpectBody
      modifies this, parser, buf`readerIndex, buf`writerIndex
      ensures Valid() && buf.Valid()
      ensures old(dispatched) <= dispatched
      ensures Reaction(Value(buf.Contents()), dispatched[|old(dispatched)|..]) == Collect(old(Value(buf.Contents())))
    {
      var remaining := parser.contentLength - parser.bodyBytesRead;
      var n := if remaining < buf.ReadableBytes() then remaining else buf.ReadableBytes();
      ghost var before := buf.Contents();
      if n > 0 {
        var data := buf.Peek();
        body := body + data[..n];
        parser.ConsumeBody(buf, n);
      }
      assert buf.Contents() == before[n..] && body == old(body) + before[..n];
      if parser.state == GotAll {
        Dispatch();
      } else {
        assert before[..n] == before;
        assert dispatched[|dispatched|..] == [];
      }
    }

    /** dispatch: hand over the request and get ready for the next one. */
    method Dispatch()
      requires parser.state == GotAll
      modifies this, parser
      ensures Valid() && Phase() == BetweenRequests && body == []
      ensures dispatched == old(dispatched) + [Exchange(old(parser.method_), old(parser.path), old(body))]
    {
      dispatched := dispatched + [Exchange(parser.method_, parser.path, body)];
      body := [];
      parser.Reset();
    }
  }
}
