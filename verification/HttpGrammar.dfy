/** The language of requests and responses, spelled out in ASCII, and the parser as its exact recogniser. */
module HttpGrammar {
  import opened Bytes
  import opened HttpSyntax

  // ----- Octets -----

  /** A token octet: visible ASCII without the delimiters (section 5.6.2 of RFC 9110). */
  predicate Tchar(b: Byte) {
    33 <= b < 127 && b !in Ascii("\"(),/:;<=>?@[\\]{}")
  }

  predicate Space(b: Byte) {
    b == 32
  }

  predicate Wsp(b: Byte) {
    b == 32 || b == 9
  }

  /** An octet of a field value or status message. */
  predicate Textual(b: Byte) {
    b == 9 || 32 <= b < 127 || 128 <= b
  }

  /** An octet of a request target. */
  predicate Visible(b: Byte) {
    33 <= b < 127 || 128 <= b
  }

  datatype Class = Tchars | Spaces | Blanks | Text | Targets

  predicate Is(b: Byte, c: Class) {
    match c
    case Tchars => Tchar(b)
    case Spaces => Space(b)
    case Blanks => Wsp(b)
    case Text => Textual(b)
    case Targets => Visible(b)
  }

  ghost predicate All(s: seq<Byte>, c: Class) {
    forall i | 0 <= i < |s| :: Is(s[i], c)
  }

  ghost predicate LineBreak(e: seq<Byte>) {
    e == [13, 10] || e == [10]
  }

  lemma Classes(b: Byte)
    ensures TokenChar(b) <==> Tchar(b)
    ensures Blank(b) <==> Wsp(b)
    ensures Control(b) <==> !Textual(b)
    ensures LineEnd(b) <==> b == 13 || b == 10
  {
    assert Ascii("\"(),/:;<=>?@[\\]{}") == [34, 40, 41, 44, 47, 58, 59, 60, 61, 62, 63, 64, 91, 92, 93, 123, 125];
  }

  // ----- The grammar -----

  /** A field line, or without a name the continuation of the one before. */
  datatype Line = Line(name: seq<Byte>, gap: seq<Byte>, value: seq<Byte>, trail: seq<Byte>, end: seq<Byte>)

  ghost predicate ValidLine(l: Line, first: bool) {
    && LineBreak(l.end) && All(l.trail, Blanks) && All(l.value, Text)
    && (l.value != [] ==> !Wsp(l.value[|l.value| - 1]))
    && (if l.name != [] then
          && All(l.name, Tchars) && All(l.gap, Blanks)
          && (if l.value != [] then !Wsp(l.value[0]) else l.trail == [])
        else
          !first && l.gap == [] && l.value + l.trail != [] && Wsp((l.value + l.trail)[0]))
  }

  function PrintLine(l: Line): seq<Byte> {
    (if l.name != [] then l.name + [58] else []) + (l.gap + ((l.value + l.trail) + l.end))
  }

  function FieldOf(l: Line): Header {
    Header(l.name, l.value)
  }

  ghost predicate ValidLines(lines: seq<Line>, first: bool) {
    lines != [] ==> ValidLine(lines[0], first) && ValidLines(lines[1..], false)
  }

  function PrintLines(lines: seq<Line>): seq<Byte> {
    if lines == [] then [] else PrintLine(lines[0]) + PrintLines(lines[1..])
  }

  function Meanings(lines: seq<Line>): (hs: seq<Header>)
    ensures |hs| == |lines|
  {
    if lines == [] then [] else [FieldOf(lines[0])] + Meanings(lines[1..])
  }

  /** A block of lines and the empty line that ends it. */
  datatype Block = Block(lines: seq<Line>, last: seq<Byte>)

  ghost predicate ValidBlock(b: Block) {
    ValidLines(b.lines, true) && LineBreak(b.last)
  }

  function PrintBlock(b: Block): seq<Byte> {
    PrintLines(b.lines) + b.last
  }

  function PrintVersion(minor: nat): (v: seq<Byte>)
    requires minor < 10
    ensures |v| == 8
  {
    Ascii("HTTP/1.") + [48 + minor]
  }

  datatype RequestForm = RequestForm(lead: seq<Byte>, method_: seq<Byte>, gap: seq<Byte>, target: seq<Byte>,
                                     gap': seq<Byte>, minor: nat, end: seq<Byte>, block: Block)

  ghost predicate ValidRequest(f: RequestForm) {
    && (f.lead == [] || LineBreak(f.lead))
    && f.method_ != [] && All(f.method_, Tchars) && f.gap != [] && All(f.gap, Spaces)
    && f.target != [] && All(f.target, Targets) && f.gap' != [] && All(f.gap', Spaces)
    && f.minor < 10 && LineBreak(f.end) && ValidBlock(f.block)
  }

  function PrintRequestForm(f: RequestForm): seq<Byte>
    requires f.minor < 10
  {
    f.lead + ((f.method_ + (f.gap + (f.target + f.gap'))) + ((PrintVersion(f.minor) + f.end) + PrintBlock(f.block)))
  }

  function RequestOf(f: RequestForm): Request
    requires f.minor < 10
  {
    Request(f.method_, f.target, f.minor, Meanings(f.block.lines), |PrintRequestForm(f)|)
  }

  /** A status as three digits. */
  function PrintStatus(status: nat): seq<Byte>
    requires status < 1000
  {
    [48 + status / 100, 48 + status / 10 % 10, 48 + status % 10]
  }

  /** The message is set off from the status by spaces; there may be neither. */
  datatype ResponseForm = ResponseForm(minor: nat, gap: seq<Byte>, status: nat, pad: seq<Byte>, message: seq<Byte>,
                                       end: seq<Byte>, block: Block)

  ghost predicate ValidResponse(f: ResponseForm) {
    && f.minor < 10 && f.gap != [] && All(f.gap, Spaces) && f.status < 1000
    && All(f.pad, Spaces) && All(f.message, Text) && (f.message != [] ==> f.pad != [] && !Space(f.message[0]))
    && LineBreak(f.end) && ValidBlock(f.block)
  }

  function PrintResponseForm(f: ResponseForm): seq<Byte>
    requires f.minor < 10 && f.status < 1000
  {
    (PrintVersion(f.minor) + (f.gap + (PrintStatus(f.status) + ((f.pad + f.message) + f.end)))) + PrintBlock(f.block)
  }

  function ResponseOf(f: ResponseForm): Response
    requires f.minor < 10 && f.status < 1000
  {
    Response(f.minor, f.status, f.message, Meanings(f.block.lines), |PrintResponseForm(f)|)
  }

  // ----- Text in its place -----

  /** `w` stands in `s` at `i`. */
  ghost predicate At(s: seq<Byte>, i: nat, w: seq<Byte>) {
    i + |w| <= |s| && s[i..i + |w|] == w
  }

  lemma AtSplit(s: seq<Byte>, i: nat, a: seq<Byte>, b: seq<Byte>)
    ensures At(s, i, a + b) <==> At(s, i, a) && At(s, i + |a|, b)
  {
    if i + |a + b| <= |s| {
      assert s[i..i + |a + b|] == s[i..i + |a|] + s[i + |a|..i + |a| + |b|];
      if At(s, i, a + b) {
        assert a == (a + b)[..|a|] && b == (a + b)[|a|..];
      }
    }
  }

  /** `w` is `a` followed by `b`. */
  ghost predicate Joins(w: seq<Byte>, a: seq<Byte>, b: seq<Byte>) {
    w == a + b
  }

  lemma AtJoin(s: seq<Byte>, i: nat, w: seq<Byte>, a: seq<Byte>, b: seq<Byte>)
    requires Joins(w, a, b)
    ensures |w| == |a| + |b| && (At(s, i, w) <==> At(s, i, a) && At(s, i + |a|, b))
  {
    AtSplit(s, i, a, b);
  }

  lemma AtOctet(s: seq<Byte>, i: nat, w: seq<Byte>, k: nat)
    requires At(s, i, w) && k < |w|
    ensures i + k < |s| && s[i + k] == w[k]
  {
  }

  lemma AtAll(s: seq<Byte>, i: nat, w: seq<Byte>, c: Class)
    requires At(s, i, w)
    ensures All(w, c) <==> forall k | i <= k < i + |w| :: Is(s[k], c)
  {
    if All(w, c) {
      forall k | i <= k < i + |w| ensures Is(s[k], c) {
        assert s[k] == w[k - i];
      }
    }
    if forall k | i <= k < i + |w| :: Is(s[k], c) {
      forall k | 0 <= k < |w| ensures Is(w[k], c) {
        assert w[k] == s[i + k];
      }
    }
  }

  /** The octets from `i` to `j` are of one class. */
  ghost predicate RunTo(s: seq<Byte>, i: nat, j: nat, c: Class) {
    i <= j <= |s| && forall k | i <= k < j :: Is(s[k], c)
  }

  lemma RunHere(s: seq<Byte>, i: nat, w: seq<Byte>, c: Class)
    requires At(s, i, w) && All(w, c)
    ensures RunTo(s, i, i + |w|, c) && i + |w| <= |s| && s[i..i + |w|] == w
  {
    AtAll(s, i, w, c);
  }

  // ----- The recognisers, exactly -----

  lemma {:induction false} TokenEndIs(s: seq<Byte>, i: nat, j: nat, stop: Byte)
    requires !Tchar(stop)
    ensures TokenEnd(s, i, stop) == Ok(j) <==>
            i <= j < |s| && s[j] == stop && forall k | i <= k < j :: Tchar(s[k])
    decreases |s| - i
  {
    if i < |s| {
      Classes(s[i]);
      if s[i] != stop && TokenChar(s[i]) {
        TokenEndIs(s, i + 1, j, stop);
      }
    }
  }

  lemma {:induction false} SkipSpacesIs(s: seq<Byte>, i: nat, j: nat)
    ensures SkipSpaces(s, i) == Ok(j) <==> i <= j < |s| && !Space(s[j]) && forall k | i <= k < j :: Space(s[k])
    decreases |s| - i
  {
    if i < |s| && s[i] == SP {
      SkipSpacesIs(s, i + 1, j);
    }
  }

  lemma {:induction false} SkipBlanksIs(s: seq<Byte>, i: nat, j: nat)
    ensures SkipBlanks(s, i) == Ok(j) <==> i <= j < |s| && !Wsp(s[j]) && forall k | i <= k < j :: Wsp(s[k])
    decreases |s| - i
  {
    if i < |s| {
      Classes(s[i]);
      if Blank(s[i]) {
        SkipBlanksIs(s, i + 1, j);
      }
    }
  }

  lemma {:induction false} PathEndIs(s: seq<Byte>, i: nat, j: nat)
    ensures PathEnd(s, i) == Ok(j) <==> i <= j < |s| && Space(s[j]) && forall k | i <= k < j :: Visible(s[k])
    decreases |s| - i
  {
    if i < |s| && s[i] > SP && s[i] != DEL {
      PathEndIs(s, i + 1, j);
    }
  }

  lemma {:induction false} TextEndIs(s: seq<Byte>, i: nat, j: nat)
    ensures TextEnd(s, i) == Ok(j) <==> i <= j < |s| && !Textual(s[j]) && forall k | i <= k < j :: Textual(s[k])
    decreases |s| - i
  {
    if i < |s| {
      Classes(s[i]);
      if !Control(s[i]) {
        TextEndIs(s, i + 1, j);
      }
    }
  }

  lemma EolIs(s: seq<Byte>, i: nat, n: nat)
    ensures Eol(s, i) == Ok(n) <==> i <= n <= |s| && LineBreak(s[i..n])
  {
    if i < n <= |s| && LineBreak(s[i..n]) {
      assert s[i] == s[i..n][0];
      if n == i + 2 {
        assert s[i + 1] == s[i..n][1];
      }
    }
  }

  lemma VersionIs(s: seq<Byte>, i: nat, minor: nat)
    ensures Version(s, i) == Ok(minor) <==> i + 9 <= |s| && minor < 10 && At(s, i, PrintVersion(minor))
  {
    assert Ascii("HTTP/1.") == VERSION;
    if i + 9 <= |s| && minor < 10 {
      AtSplit(s, i, VERSION, [48 + minor]);
      assert s[i + 7..i + 8] == [s[i + 7]];
    }
  }

  lemma TrimRightIs(value: seq<Byte>, trail: seq<Byte>)
    requires All(trail, Blanks) && (value != [] ==> !Wsp(value[|value| - 1]))
    ensures TrimRight(value + trail) == value
    decreases |trail|
  {
    var v := value + trail;
    if trail == [] {
      assert v == value;
      if value != [] {
        Classes(value[|value| - 1]);
      }
    } else {
      var n := |trail| - 1;
      Classes(trail[n]);
      assert v[..|v| - 1] == value + trail[..n];
      TrimRightIs(value, trail[..n]);
    }
  }

  // ----- Lines -----

  lemma TextLineAt(s: seq<Byte>, i: nat, text: seq<Byte>, end: seq<Byte>)
    requires All(text, Text) && LineBreak(end) && At(s, i, text + end)
    ensures TextLine(s, i) == Ok((text, i + |text + end|))
  {
    var e := i + |text|;
    AtSplit(s, i, text, end);
    AtOctet(s, e, end, 0);
    AtAll(s, i, text, Text);
    TextEndIs(s, i, e);
    EolIs(s, e, e + |end|);
    hide TextEnd, Eol, All;
  }

  /** The text from `i` up to a line break, without its trailing blanks. */
  lemma FieldAt(s: seq<Byte>, i: nat, l: Line)
    requires LineBreak(l.end) && All(l.trail, Blanks) && All(l.value, Text)
    requires l.value != [] ==> !Wsp(l.value[|l.value| - 1])
    requires At(s, i, (l.value + l.trail) + l.end)
    ensures Field(s, l.name, i) == Ok((FieldOf(l), i + |(l.value + l.trail) + l.end|))
  {
    WspTextual(l.trail);
    TrimRightIs(l.value, l.trail);
    AllJoin(l.value, l.trail, Text);
    hide All, At, LineBreak, TextLine, TrimRight;
    TextLineAt(s, i, l.value + l.trail, l.end);
  }

  lemma WspTextual(w: seq<Byte>)
    requires All(w, Blanks)
    ensures All(w, Text)
  {
  }

  lemma AllJoin(a: seq<Byte>, b: seq<Byte>, c: Class)
    ensures All(a + b, c) <==> All(a, c) && All(b, c)
  {
    if All(a + b, c) {
      forall k | 0 <= k < |a| ensures Is(a[k], c) {
        assert (a + b)[k] == a[k];
      }
      forall k | 0 <= k < |b| ensures Is(b[k], c) {
        assert (a + b)[|a| + k] == b[k];
      }
    }
  }

  lemma LineAt(s: seq<Byte>, i: nat, l: Line, first: bool)
    requires ValidLine(l, first) && At(s, i, PrintLine(l))
    ensures i < |s| && !LineEnd(s[i]) && HeaderLine(s, i, first) == Ok((FieldOf(l), i + |PrintLine(l)|))
  {
    var text := (l.value + l.trail) + l.end;
    if l.name == [] {
      assert PrintLine(l) == text;
      AtOctet(s, i, text, 0);
      Classes(s[i]);
      FieldAt(s, i, l);
    } else {
      NamedLineAt(s, i, l, first);
    }
  }

  lemma NamedLineAt(s: seq<Byte>, i: nat, l: Line, first: bool)
    requires ValidLine(l, first) && l.name != [] && At(s, i, PrintLine(l))
    ensures i < |s| && !LineEnd(s[i]) && HeaderLine(s, i, first) == Ok((FieldOf(l), i + |PrintLine(l)|))
  {
    hide *;
    NamedParts(l, first);
    NamedHead(s, i, l, first);
    var v := i + |l.name| + 1 + |l.gap|;
    FieldAt(s, v, l);
    HeaderLineIs(s, i, first, i + |l.name|, v);
  }

  lemma NamedHead(s: seq<Byte>, i: nat, l: Line, first: bool)
    requires ValidLine(l, first) && l.name != [] && At(s, i, PrintLine(l))
    ensures var c := i + |l.name|;
            var v := c + 1 + |l.gap|;
            && TokenEnd(s, i, COLON) == Ok(c) && SkipBlanks(s, c + 1) == Ok(v)
            && c <= |s| && s[i..c] == l.name && !Blank(s[i]) && !LineEnd(s[i])
            && At(s, v, (l.value + l.trail) + l.end)
            && |PrintLine(l)| == |l.name| + 1 + |l.gap| + |(l.value + l.trail) + l.end|
  {
    hide *;
    NamedParts(l, first);
    var text := (l.value + l.trail) + l.end;
    AtJoin(s, i, PrintLine(l), l.name + [58], l.gap + text);
    assert |l.name + [58]| == |l.name| + 1;
    NameEnds(s, i, l.name);
    GapEnds(s, i + |l.name| + 1, l.gap, text);
  }

  lemma NamedParts(l: Line, first: bool)
    requires ValidLine(l, first) && l.name != []
    ensures LineBreak(l.end) && All(l.trail, Blanks) && All(l.value, Text) && All(l.name, Tchars) && All(l.gap, Blanks)
    ensures l.value != [] ==> !Wsp(l.value[|l.value| - 1])
    ensures var text := (l.value + l.trail) + l.end;
            text != [] && !Wsp(text[0]) && Joins(PrintLine(l), l.name + [58], l.gap + text)
  {
    AfterGap(l);
  }

  lemma HeaderLineIs(s: seq<Byte>, i: nat, first: bool, c: nat, v: nat)
    requires i < |s| && (first || !Blank(s[i])) && TokenEnd(s, i, COLON) == Ok(c) && i < c
    requires SkipBlanks(s, c + 1) == Ok(v)
    ensures HeaderLine(s, i, first) == Field(s, s[i..c], v)
  {
    hide TokenEnd, SkipBlanks, Field;
  }

  lemma NameEnds(s: seq<Byte>, i: nat, name: seq<Byte>)
    requires At(s, i, name + [58]) && name != [] && All(name, Tchars)
    ensures TokenEnd(s, i, COLON) == Ok(i + |name|) && s[i..i + |name|] == name && !Blank(s[i]) && !LineEnd(s[i])
  {
    var c := i + |name|;
    AtSplit(s, i, name, [58]);
    AtOctet(s, c, [58], 0);
    AtAll(s, i, name, Tchars);
    Classes(COLON);
    Classes(s[i]);
    TokenEndIs(s, i, c, COLON);
  }

  lemma GapEnds(s: seq<Byte>, i: nat, gap: seq<Byte>, text: seq<Byte>)
    requires At(s, i, gap + text) && All(gap, Blanks) && text != [] && !Wsp(text[0])
    ensures SkipBlanks(s, i) == Ok(i + |gap|) && At(s, i + |gap|, text)
  {
    var v := i + |gap|;
    AtSplit(s, i, gap, text);
    AtOctet(s, v, text, 0);
    AtAll(s, i, gap, Blanks);
    SkipBlanksIs(s, i, v);
  }

  /** Behind the gap of a named line stands no blank. */
  lemma AfterGap(l: Line)
    requires LineBreak(l.end) && (if l.value != [] then !Wsp(l.value[0]) else l.trail == [])
    ensures var text := (l.value + l.trail) + l.end; text != [] && !Wsp(text[0])
  {
  }

  lemma OnlyLines(s: seq<Byte>, i: nat, first: bool) returns (l: Line)
    requires i < |s| && !LineEnd(s[i]) && HeaderLine(s, i, first).Ok?
    ensures var (h, n) := HeaderLine(s, i, first).value;
            ValidLine(l, first) && h == FieldOf(l) && n == i + |PrintLine(l)| && At(s, i, PrintLine(l))
  {
    if !first && Blank(s[i]) {
      l := OnlyContinuations(s, i);
    } else {
      l := OnlyNamed(s, i, first);
    }
  }

  lemma OnlyContinuations(s: seq<Byte>, i: nat) returns (l: Line)
    requires i < |s| && Blank(s[i]) && Field(s, [], i).Ok?
    ensures var (h, n) := Field(s, [], i).value;
            ValidLine(l, false) && h == FieldOf(l) && n == i + |PrintLine(l)| && At(s, i, PrintLine(l))
  {
    hide Field;
    Classes(s[i]);
    l := OnlyFields(s, [], i);
    var text := l.value + l.trail;
    assert PrintLine(l) == text + l.end;
    AtOctet(s, i, text + l.end, 0);
    assert text != [];
    assert (text + l.end)[0] == text[0];
  }

  lemma OnlyNamed(s: seq<Byte>, i: nat, first: bool) returns (l: Line)
    requires i < |s| && (first || !Blank(s[i])) && HeaderLine(s, i, first).Ok?
    ensures var (h, n) := HeaderLine(s, i, first).value;
            ValidLine(l, first) && h == FieldOf(l) && n == i + |PrintLine(l)| && At(s, i, PrintLine(l))
  {
    hide TokenEnd, SkipBlanks, Field;
    var c := TokenEnd(s, i, COLON).value;
    var v := SkipBlanks(s, c + 1).value;
    Classes(COLON);
    TokenEndIs(s, i, c, COLON);
    SkipBlanksIs(s, c + 1, v);
    l := OnlyFields(s, s[i..c], v);
    AtFirst(s, v, l);
    AtAll(s, i, s[i..c], Tchars);
    AtAll(s, c + 1, s[c + 1..v], Blanks);
    hide All, LineBreak, At;
    l := l.(gap := s[c + 1..v]);
    GapBefore(s, i, c, v, l);
  }

  lemma AtFirst(s: seq<Byte>, v: nat, l: Line)
    requires At(s, v, (l.value + l.trail) + l.end) && v < |s| && !Wsp(s[v]) && LineBreak(l.end)
    requires l.value == [] && l.trail != [] ==> Wsp((l.value + l.trail)[0])
    ensures if l.value != [] then !Wsp(l.value[0]) else l.trail == []
  {
    var w := (l.value + l.trail) + l.end;
    AtOctet(s, v, w, 0);
    if l.value + l.trail != [] {
      assert w[0] == (l.value + l.trail)[0];
    }
  }

  lemma GapBefore(s: seq<Byte>, i: nat, c: nat, v: nat, l: Line)
    requires i < c < v <= |s| && l.name == s[i..c] && l.gap == s[c + 1..v] && s[c] == 58
    requires At(s, v, (l.value + l.trail) + l.end)
    ensures At(s, i, PrintLine(l)) && |PrintLine(l)| == v - i + |(l.value + l.trail) + l.end|
  {
    AtSplit(s, i, l.name, [58]);
    assert s[c..c + 1] == [58];
    AtSplit(s, c + 1, l.gap, (l.value + l.trail) + l.end);
    AtSplit(s, i, l.name + [58], l.gap + ((l.value + l.trail) + l.end));
  }

  lemma OnlyTextLines(s: seq<Byte>, i: nat) returns (end: seq<Byte>)
    requires TextLine(s, i).Ok? && i <= |s|
    ensures var (text, n) := TextLine(s, i).value;
            All(text, Text) && LineBreak(end) && n == i + |text + end| && At(s, i, text + end)
  {
    var e := TextEnd(s, i).value;
    var n := Eol(s, e).value;
    TextEndIs(s, i, e);
    EolIs(s, e, n);
    end := s[e..n];
    AtAll(s, i, s[i..e], Text);
    AtSplit(s, i, s[i..e], end);
  }

  lemma TrimParts(text: seq<Byte>) returns (trail: seq<Byte>)
    ensures var value := TrimRight(text);
            text == value + trail && All(trail, Blanks) && (value != [] ==> !Wsp(value[|value| - 1]))
  {
    var value := TrimRight(text);
    trail := text[|value|..];
    forall k | 0 <= k < |trail| ensures Wsp(trail[k]) {
      Classes(text[|value| + k]);
    }
    if value != [] {
      Classes(value[|value| - 1]);
    }
  }

  lemma OnlyFields(s: seq<Byte>, name: seq<Byte>, i: nat) returns (l: Line)
    requires Field(s, name, i).Ok? && i <= |s|
    ensures var (h, n) := Field(s, name, i).value;
            && l.name == name && l.gap == [] && h == FieldOf(l)
            && LineBreak(l.end) && All(l.trail, Blanks) && All(l.value, Text)
            && (l.value != [] ==> !Wsp(l.value[|l.value| - 1]))
            && n == i + |(l.value + l.trail) + l.end| && At(s, i, (l.value + l.trail) + l.end)
  {
    hide All, At, LineBreak, TextLine, TrimRight;
    var text := TextLine(s, i).value.0;
    var end := OnlyTextLines(s, i);
    var trail := TrimParts(text);
    AllJoin(TrimRight(text), trail, Text);
    l := Line(name, [], TrimRight(text), trail, end);
  }

  // ----- Blocks -----

  ghost predicate HeadersAre(s: seq<Byte>, i: nat, max: nat, acc: seq<Header>, r: Parse<(seq<Header>, nat)>) {
    Headers(s, i, max, acc) == r
  }

  lemma {:induction false} BlockAt(s: seq<Byte>, i: nat, b: Block, max: nat, acc: seq<Header>)
    requires ValidLines(b.lines, acc == []) && LineBreak(b.last) && At(s, i, PrintBlock(b))
    ensures HeadersAre(s, i, max, acc,
                       if |b.lines| <= max then Ok((acc + Meanings(b.lines), i + |PrintBlock(b)|)) else Bad)
    decreases |b.lines|
  {
    hide *;
    if b.lines == [] {
      LastLineAt(s, i, b, max, acc);
    } else {
      var l, rest := b.lines[0], Block(b.lines[1..], b.last);
      BlockStep(s, i, b, acc == []);
      var n, hs := i + |PrintLine(l)|, acc + [FieldOf(l)];
      if max == 0 {
        NoneLeft(s, i, acc, l);
      } else {
        BlockAt(s, n, rest, max - 1, hs);
        MeaningsSplit(b.lines, acc);
        LineThen(s, i, max, acc, l,
                 if |rest.lines| <= max - 1 then Ok((hs + Meanings(rest.lines), n + |PrintBlock(rest)|)) else Bad);
      }
    }
  }

  lemma BlockStep(s: seq<Byte>, i: nat, b: Block, first: bool)
    requires b.lines != [] && ValidLines(b.lines, first) && At(s, i, PrintBlock(b))
    ensures var l, rest := b.lines[0], Block(b.lines[1..], b.last);
            && |PrintBlock(b)| == |PrintLine(l)| + |PrintBlock(rest)|
            && ValidLine(l, first) && At(s, i, PrintLine(l))
            && ValidLines(rest.lines, false) && At(s, i + |PrintLine(l)|, PrintBlock(rest))
  {
    var l, rest := b.lines[0], Block(b.lines[1..], b.last);
    BlockSplit(b, first);
    hide *;
    AtJoin(s, i, PrintBlock(b), PrintLine(l), PrintBlock(rest));
  }

  lemma LineThen(s: seq<Byte>, i: nat, max: nat, acc: seq<Header>, l: Line, r: Parse<(seq<Header>, nat)>)
    requires ValidLine(l, acc == []) && At(s, i, PrintLine(l))
    requires max > 0 && HeadersAre(s, i + |PrintLine(l)|, max - 1, acc + [FieldOf(l)], r)
    ensures HeadersAre(s, i, max, acc, r)
  {
    hide *;
    LineAt(s, i, l, acc == []);
    HeadersStep(s, i, max, acc, FieldOf(l), i + |PrintLine(l)|, r);
  }

  lemma HeadersStep(s: seq<Byte>, i: nat, max: nat, acc: seq<Header>, h: Header, n: nat,
                    r: Parse<(seq<Header>, nat)>)
    requires i < |s| && !LineEnd(s[i]) && HeaderLine(s, i, acc == []) == Ok((h, n))
    requires max > 0 && HeadersAre(s, n, max - 1, acc + [h], r)
    ensures HeadersAre(s, i, max, acc, r)
  {
    hide HeaderLine;
  }

  lemma NoneLeft(s: seq<Byte>, i: nat, acc: seq<Header>, l: Line)
    requires ValidLine(l, acc == []) && At(s, i, PrintLine(l))
    ensures HeadersAre(s, i, 0, acc, Bad)
  {
    LineAt(s, i, l, acc == []);
    hide HeaderLine, ValidLine, PrintLine, At;
  }

  lemma BlockSplit(b: Block, first: bool)
    requires b.lines != []
    ensures var l, rest := b.lines[0], Block(b.lines[1..], b.last);
            && Joins(PrintBlock(b), PrintLine(l), PrintBlock(rest))
            && (ValidLines(b.lines, first) <==> ValidLine(l, first) && ValidLines(rest.lines, false))
  {
    hide PrintLine, ValidLine;
    var l, lines := b.lines[0], b.lines[1..];
    assert (PrintLine(l) + PrintLines(lines)) + b.last == PrintLine(l) + (PrintLines(lines) + b.last);
  }

  lemma MeaningsSplit(lines: seq<Line>, acc: seq<Header>)
    requires lines != []
    ensures acc + Meanings(lines) == (acc + [FieldOf(lines[0])]) + Meanings(lines[1..])
  {
    hide FieldOf;
    assert acc + ([FieldOf(lines[0])] + Meanings(lines[1..])) == (acc + [FieldOf(lines[0])]) + Meanings(lines[1..]);
  }

  lemma LastLineAt(s: seq<Byte>, i: nat, b: Block, max: nat, acc: seq<Header>)
    requires b.lines == [] && LineBreak(b.last) && At(s, i, PrintBlock(b))
    ensures HeadersAre(s, i, max, acc, Ok((acc + Meanings(b.lines), i + |PrintBlock(b)|)))
  {
    assert PrintBlock(b) == b.last;
    AtOctet(s, i, b.last, 0);
    EolIs(s, i, i + |b.last|);
    assert acc + [] == acc;
  }

  lemma {:induction false} OnlyBlocks(s: seq<Byte>, i: nat, max: nat, acc: seq<Header>, hs: seq<Header>, n: nat)
      returns (b: Block)
    requires HeadersAre(s, i, max, acc, Ok((hs, n)))
    ensures ValidLines(b.lines, acc == []) && LineBreak(b.last) && |b.lines| <= max
    ensures hs == acc + Meanings(b.lines) && n == i + |PrintBlock(b)| && At(s, i, PrintBlock(b))
    decreases |s| - i
  {
    hide *;
    NotAtEnd(s, i, max, acc, hs, n);
    if LineEnd(s[i]) {
      b := OnlyLastLines(s, i, max, acc, hs, n);
    } else {
      var l := NextLine(s, i, max, acc, hs, n);
      var rest := OnlyBlocks(s, i + |PrintLine(l)|, max - 1, acc + [FieldOf(l)], hs, n);
      b := BlockOf(s, i, l, rest, acc == []);
      MeaningsSplit(b.lines, acc);
    }
  }

  lemma NotAtEnd(s: seq<Byte>, i: nat, max: nat, acc: seq<Header>, hs: seq<Header>, n: nat)
    requires HeadersAre(s, i, max, acc, Ok((hs, n)))
    ensures i < |s|
  {
  }

  lemma BlockOf(s: seq<Byte>, i: nat, l: Line, rest: Block, first: bool) returns (b: Block)
    requires ValidLine(l, first) && ValidLines(rest.lines, false) && LineBreak(rest.last)
    requires At(s, i, PrintLine(l)) && At(s, i + |PrintLine(l)|, PrintBlock(rest))
    ensures b.lines != [] && b.lines[0] == l && b.lines[1..] == rest.lines
    ensures ValidLines(b.lines, first) && LineBreak(b.last)
    ensures At(s, i, PrintBlock(b)) && |PrintBlock(b)| == |PrintLine(l)| + |PrintBlock(rest)|
  {
    b := Block([l] + rest.lines, rest.last);
    assert b.lines[1..] == rest.lines;
    BlockSplit(b, first);
    hide *;
    assert Block(b.lines[1..], b.last) == rest;
    AtJoin(s, i, PrintBlock(b), PrintLine(l), PrintBlock(rest));
  }

  lemma NextLine(s: seq<Byte>, i: nat, max: nat, acc: seq<Header>, hs: seq<Header>, n: nat) returns (l: Line)
    requires HeadersAre(s, i, max, acc, Ok((hs, n))) && i < |s| && !LineEnd(s[i])
    ensures ValidLine(l, acc == []) && At(s, i, PrintLine(l)) && |PrintLine(l)| > 0 && i + |PrintLine(l)| <= |s|
    ensures max > 0 && HeadersAre(s, i + |PrintLine(l)|, max - 1, acc + [FieldOf(l)], Ok((hs, n)))
  {
    hide *;
    NextHeader(s, i, max, acc, hs, n);
    l := OnlyLines(s, i, acc == []);
  }

  lemma NextHeader(s: seq<Byte>, i: nat, max: nat, acc: seq<Header>, hs: seq<Header>, n: nat)
    requires HeadersAre(s, i, max, acc, Ok((hs, n))) && i < |s| && !LineEnd(s[i])
    ensures max > 0 && HeaderLine(s, i, acc == []).Ok?
    ensures var (h, n') := HeaderLine(s, i, acc == []).value;
            i < n' <= |s| && HeadersAre(s, n', max - 1, acc + [h], Ok((hs, n)))
  {
    hide HeaderLine;
  }

  lemma OnlyLastLines(s: seq<Byte>, i: nat, max: nat, acc: seq<Header>, hs: seq<Header>, n: nat) returns (b: Block)
    requires HeadersAre(s, i, max, acc, Ok((hs, n))) && i < |s| && LineEnd(s[i])
    ensures |b.lines| <= max && ValidLines(b.lines, acc == []) && LineBreak(b.last)
    ensures hs == acc + Meanings(b.lines) && n == i + |PrintBlock(b)| && At(s, i, PrintBlock(b))
  {
    EolIs(s, i, n);
    b := Block([], s[i..n]);
    assert PrintBlock(b) == s[i..n];
    assert acc + [] == acc;
  }

  lemma HeadersBe(s: seq<Byte>, i: nat, max: nat, b: Block)
    requires HeadersAre(s, i, max, [],
                        if |b.lines| <= max then Ok(([] + Meanings(b.lines), i + |PrintBlock(b)|)) else Bad)
    ensures Headers(s, i, max, []) == if |b.lines| <= max then Ok((Meanings(b.lines), i + |PrintBlock(b)|)) else Bad
  {
    assert [] + Meanings(b.lines) == Meanings(b.lines);
  }

  lemma HeadersOk(s: seq<Byte>, i: nat, max: nat, hs: seq<Header>, n: nat)
    requires Headers(s, i, max, []) == Ok((hs, n))
    ensures HeadersAre(s, i, max, [], Ok((hs, n)))
  {
  }

  // ----- Requests -----

  lemma ScansAt(s: seq<Byte>, m: nat, m': nat, p: nat, p': nat, v: nat)
    requires RunTo(s, m, m', Tchars) && RunTo(s, m', p, Spaces) && RunTo(s, p, p', Targets) && RunTo(s, p', v, Spaces)
    requires m' < p < p' < v < |s| && !Space(s[v])
    ensures TokenEnd(s, m, SP) == Ok(m') && SkipSpaces(s, m' + 1) == Ok(p)
    ensures PathEnd(s, p) == Ok(p') && SkipSpaces(s, p' + 1) == Ok(v)
  {
    hide TokenEnd, SkipSpaces, PathEnd, Tchar, Visible;
    Classes(SP);
    TokenEndIs(s, m, m', SP);
    SkipSpacesIs(s, m' + 1, p);
    PathEndIs(s, p, p');
    SkipSpacesIs(s, p' + 1, v);
  }

  lemma TargetAt(s: seq<Byte>, m: nat, method_: seq<Byte>, gap: seq<Byte>, target: seq<Byte>, gap': seq<Byte>,
                 rest: seq<Byte>)
    requires method_ != [] && All(method_, Tchars) && gap != [] && All(gap, Spaces)
    requires target != [] && All(target, Targets) && gap' != [] && All(gap', Spaces)
    requires At(s, m, (method_ + (gap + (target + gap'))) + rest) && rest != [] && !Space(rest[0])
    ensures var v := m + |method_ + (gap + (target + gap'))|;
            MethodAndPath(s, m) == Ok(((method_, target), v)) && At(s, v, rest)
  {
    hide All, At, RunTo, Space, TokenEnd, SkipSpaces, PathEnd;
    var m' := m + |method_|;
    var p := m' + |gap|;
    var p' := p + |target|;
    var v := p' + |gap'|;
    AtSplit(s, m, method_ + (gap + (target + gap')), rest);
    AtSplit(s, m, method_, gap + (target + gap'));
    AtSplit(s, m', gap, target + gap');
    AtSplit(s, p, target, gap');
    AtOctet(s, v, rest, 0);
    RunHere(s, m, method_, Tchars);
    RunHere(s, m', gap, Spaces);
    RunHere(s, p, target, Targets);
    RunHere(s, p', gap', Spaces);
    ScansAt(s, m, m', p, p', v);
  }

  lemma VersionLineAt(s: seq<Byte>, v: nat, minor: nat, end: seq<Byte>)
    requires minor < 10 && LineBreak(end) && At(s, v, PrintVersion(minor) + end)
    ensures VersionLine(s, v) == Ok((minor, v + 8 + |end|))
  {
    AtSplit(s, v, PrintVersion(minor), end);
    VersionIs(s, v, minor);
    EolIs(s, v + 8, v + 8 + |end|);
  }

  lemma LeadAt(s: seq<Byte>, f: RequestForm, rest: seq<Byte>)
    requires ValidRequest(f) && At(s, 0, f.lead + (f.method_ + rest))
    ensures LeadingLine(s) == Ok(|f.lead|)
  {
    AtSplit(s, 0, f.lead, f.method_ + rest);
    if f.lead == [] {
      AtOctet(s, 0, f.method_ + rest, 0);
      assert Tchar(f.method_[0]);
      Classes(s[0]);
    } else {
      AtOctet(s, 0, f.lead, 0);
      EolIs(s, 0, |f.lead|);
    }
  }

  lemma VersionStarts(minor: nat, rest: seq<Byte>)
    requires minor < 10
    ensures (PrintVersion(minor) + rest)[0] == 72
  {
    assert Ascii("HTTP/1.")[0] == 72;
  }

  /** Whatever has the form of a request is accepted as what it means, and none of what follows it is consumed. */
  lemma RequestAt(s: seq<Byte>, f: RequestForm, max: nat)
    requires ValidRequest(f) && At(s, 0, PrintRequestForm(f))
    ensures ParseRequest(s, max) == if |f.block.lines| <= max then Ok(RequestOf(f)) else Bad
  {
    hide LeadingLine, MethodAndPath, VersionLine, Headers, At, PrintVersion, All;
    var head := f.method_ + (f.gap + (f.target + f.gap'));
    var version, block := PrintVersion(f.minor) + f.end, PrintBlock(f.block);
    assert PrintRequestForm(f) == f.lead + (f.method_ + ((f.gap + (f.target + f.gap')) + (version + block)));
    LeadAt(s, f, (f.gap + (f.target + f.gap')) + (version + block));
    var m := |f.lead|;
    AtSplit(s, 0, f.lead, head + (version + block));
    VersionStarts(f.minor, f.end + block);
    assert version + block == PrintVersion(f.minor) + (f.end + block);
    TargetAt(s, m, f.method_, f.gap, f.target, f.gap', version + block);
    var v := m + |head|;
    AtSplit(s, v, version, block);
    VersionLineAt(s, v, f.minor, f.end);
    BlockAt(s, v + |version|, f.block, max, []);
    HeadersBe(s, v + |version|, max, f.block);
  }

  /** And nothing else is: whatever is accepted begins with a request of that meaning. */
  lemma OnlyRequests(s: seq<Byte>, max: nat) returns (f: RequestForm)
    requires ParseRequest(s, max).Ok?
    ensures ValidRequest(f) && At(s, 0, PrintRequestForm(f)) && |f.block.lines| <= max
    ensures ParseRequest(s, max) == Ok(RequestOf(f))
  {
    hide LeadingLine, MethodAndPath, VersionLine, Headers, At, PrintVersion, All;
    var m := LeadingLine(s).value;
    var v := MethodAndPath(s, m).value.1;
    var h := VersionLine(s, v).value.1;
    var lead := OnlyLeads(s);
    var gap, gap' := OnlyTargets(s, m);
    var end := OnlyVersionLines(s, v);
    var (hs, n) := Headers(s, h, max, []).value;
    HeadersOk(s, h, max, hs, n);
    var block := OnlyBlocks(s, h, max, [], hs, n);
    var ((method_, target), _) := MethodAndPath(s, m).value;
    var minor := VersionLine(s, v).value.0;
    f := RequestForm(lead, method_, gap, target, gap', minor, end, block);
    var head, version := method_ + (gap + (target + gap')), PrintVersion(minor) + end;
    AtSplit(s, v, version, PrintBlock(block));
    AtSplit(s, m, head, version + PrintBlock(block));
    AtSplit(s, 0, lead, head + (version + PrintBlock(block)));
    RequestAt(s, f, max);
  }

  lemma OnlyLeads(s: seq<Byte>) returns (lead: seq<Byte>)
    requires LeadingLine(s).Ok?
    ensures (lead == [] || LineBreak(lead)) && |lead| == LeadingLine(s).value && At(s, 0, lead)
  {
    var m := LeadingLine(s).value;
    lead := s[..m];
    if lead != [] {
      EolIs(s, 0, m);
    }
  }

  lemma OnlyTargets(s: seq<Byte>, m: nat) returns (gap: seq<Byte>, gap': seq<Byte>)
    requires MethodAndPath(s, m).Ok?
    ensures var ((method_, target), v) := MethodAndPath(s, m).value;
            && method_ != [] && All(method_, Tchars) && gap != [] && All(gap, Spaces)
            && target != [] && All(target, Targets) && gap' != [] && All(gap', Spaces)
            && v == m + |method_ + (gap + (target + gap'))| && At(s, m, method_ + (gap + (target + gap')))
  {
    hide All, At, RunTo, TokenEnd, SkipSpaces, PathEnd;
    var m' := TokenEnd(s, m, SP).value;
    var p := SkipSpaces(s, m' + 1).value;
    var p' := PathEnd(s, p).value;
    var v := SkipSpaces(s, p' + 1).value;
    ScansOnly(s, m, m', p, p', v);
    gap, gap' := s[m'..p], s[p'..v];
    RunSlice(s, m, m', Tchars);
    RunSlice(s, m', p, Spaces);
    RunSlice(s, p, p', Targets);
    RunSlice(s, p', v, Spaces);
    AtSplit(s, p, s[p..p'], gap');
    AtSplit(s, m', gap, s[p..p'] + gap');
    AtSplit(s, m, s[m..m'], gap + (s[p..p'] + gap'));
  }

  lemma RunSlice(s: seq<Byte>, i: nat, j: nat, c: Class)
    requires RunTo(s, i, j, c)
    ensures i <= j <= |s| && All(s[i..j], c) && At(s, i, s[i..j])
  {
    AtAll(s, i, s[i..j], c);
  }

  lemma ScansOnly(s: seq<Byte>, m: nat, m': nat, p: nat, p': nat, v: nat)
    requires TokenEnd(s, m, SP) == Ok(m') && SkipSpaces(s, m' + 1) == Ok(p)
    requires PathEnd(s, p) == Ok(p') && SkipSpaces(s, p' + 1) == Ok(v)
    ensures RunTo(s, m, m', Tchars) && RunTo(s, m', p, Spaces) && RunTo(s, p, p', Targets) && RunTo(s, p', v, Spaces)
    ensures m' < p <= p' < v < |s|
  {
    hide TokenEnd, SkipSpaces, PathEnd, Tchar, Visible;
    Classes(SP);
    TokenEndIs(s, m, m', SP);
    SkipSpacesIs(s, m' + 1, p);
    PathEndIs(s, p, p');
    SkipSpacesIs(s, p' + 1, v);
  }

  lemma OnlyVersionLines(s: seq<Byte>, v: nat) returns (end: seq<Byte>)
    requires VersionLine(s, v).Ok?
    ensures var (minor, h) := VersionLine(s, v).value;
            minor < 10 && LineBreak(end) && h == v + 8 + |end| && At(s, v, PrintVersion(minor) + end)
  {
    var (minor, h) := VersionLine(s, v).value;
    VersionIs(s, v, minor);
    EolIs(s, v + 8, h);
    end := s[v + 8..h];
    AtSplit(s, v, PrintVersion(minor), end);
  }

  // ----- Responses -----

  lemma {:induction false} TrimSpacesIs(pad: seq<Byte>, message: seq<Byte>)
    requires All(pad, Spaces) && (message != [] ==> !Space(message[0]))
    ensures TrimSpaces(pad + message) == message
  {
    if pad == [] {
      assert pad + message == message;
    } else {
      assert Is(pad[0], Spaces);
      assert (pad + message)[1..] == pad[1..] + message;
      TrimSpacesIs(pad[1..], message);
    }
  }

  lemma {:induction false} TrimSpacesOnly(v: seq<Byte>) returns (pad: seq<Byte>)
    ensures All(pad, Spaces) && v == pad + TrimSpaces(v) && (TrimSpaces(v) != [] ==> !Space(TrimSpaces(v)[0]))
  {
    if v != [] && v[0] == SP {
      pad := TrimSpacesOnly(v[1..]);
      pad := [SP] + pad;
    } else {
      pad := [];
    }
  }

  lemma StatusIs(s: seq<Byte>, i: nat, status: nat)
    ensures Status(s, i) == Ok(status) <==> i + 4 <= |s| && status < 1000 && At(s, i, PrintStatus(status))
  {
    if i + 4 <= |s| {
      assert s[i..i + 3] == [s[i], s[i + 1], s[i + 2]];
      if status < 1000 {
        Digits(status / 100, status / 10 % 10, status % 10);
        assert status == 100 * (status / 100) + 10 * (status / 10 % 10) + status % 10;
      }
      if Status(s, i) == Ok(status) {
        Digits(s[i] - DIGIT0, s[i + 1] - DIGIT0, s[i + 2] - DIGIT0);
      }
    }
  }

  lemma Digits(a: nat, b: nat, c: nat)
    requires a < 10 && b < 10 && c < 10
    ensures var n := 100 * a + 10 * b + c; n < 1000 && n / 100 == a && n / 10 % 10 == b && n % 10 == c
  {
  }

  lemma PadSpaces(pad: seq<Byte>, message: seq<Byte>)
    requires All(pad, Spaces) && All(message, Text) && (message != [] ==> pad != [])
    ensures All(pad + message, Text) && (pad + message != [] ==> (pad + message)[0] == 32)
  {
    assert All(pad, Text);
    AllJoin(pad, message, Text);
    if pad != [] {
      assert Is(pad[0], Spaces);
    }
  }

  /** The status and the message behind the spaces at `c`. */
  lemma MessageAt(s: seq<Byte>, c: nat, status: nat, pad: seq<Byte>, message: seq<Byte>, end: seq<Byte>)
    requires status < 1000 && All(pad, Spaces) && All(message, Text) && LineBreak(end)
    requires message != [] ==> pad != [] && !Space(message[0])
    requires At(s, c, PrintStatus(status) + ((pad + message) + end))
    ensures Status(s, c) == Ok(status) && TextLine(s, c + 3) == Ok((pad + message, c + 3 + |(pad + message) + end|))
    ensures TrimSpaces(pad + message) == message && (pad + message != [] ==> (pad + message)[0] == SP)
    ensures c < |s| && !Space(s[c])
  {
    AtSplit(s, c, PrintStatus(status), (pad + message) + end);
    AtOctet(s, c, PrintStatus(status), 0);
    PadSpaces(pad, message);
    TrimSpacesIs(pad, message);
    StatusIs(s, c, status);
    TextLineAt(s, c + 3, pad + message, end);
  }

  lemma GapAt(s: seq<Byte>, i: nat, gap: seq<Byte>)
    requires At(s, i, gap) && gap != [] && All(gap, Spaces) && i + |gap| < |s| && !Space(s[i + |gap|])
    ensures s[i] == SP && SkipSpaces(s, i + 1) == Ok(i + |gap|)
  {
    AtAll(s, i, gap, Spaces);
    SkipSpacesIs(s, i + 1, i + |gap|);
  }

  function PrintMessage(f: ResponseForm): seq<Byte>
    requires f.status < 1000
  {
    PrintStatus(f.status) + ((f.pad + f.message) + f.end)
  }

  function PrintStatusLine(f: ResponseForm): seq<Byte>
    requires f.minor < 10 && f.status < 1000
  {
    PrintVersion(f.minor) + (f.gap + PrintMessage(f))
  }

  lemma StatusLineAt(s: seq<Byte>, f: ResponseForm)
    requires ValidResponse(f) && At(s, 0, PrintStatusLine(f))
    ensures StatusLine(s) == Ok(((f.minor, f.status, f.message), |PrintStatusLine(f)|))
  {
    hide *;
    ResponseParts(f);
    var c := 8 + |f.gap|;
    AtJoin(s, 0, PrintStatusLine(f), PrintVersion(f.minor), f.gap + PrintMessage(f));
    AtSplit(s, 8, f.gap, PrintMessage(f));
    MessageAt(s, c, f.status, f.pad, f.message, f.end);
    GapAt(s, 8, f.gap);
    VersionIs(s, 0, f.minor);
    StatusLineIs(s, f.minor, c, f.status, f.pad + f.message, |PrintStatusLine(f)|);
  }

  lemma ResponseParts(f: ResponseForm)
    requires ValidResponse(f)
    ensures All(f.gap, Spaces) && f.gap != [] && All(f.pad, Spaces) && All(f.message, Text) && LineBreak(f.end)
    ensures f.message != [] ==> f.pad != [] && !Space(f.message[0])
    ensures f.minor < 10 && f.status < 1000 && |PrintVersion(f.minor)| == 8
    ensures PrintMessage(f) == PrintStatus(f.status) + ((f.pad + f.message) + f.end)
    ensures Joins(PrintStatusLine(f), PrintVersion(f.minor), f.gap + PrintMessage(f))
    ensures |PrintStatusLine(f)| == 8 + |f.gap| + 3 + |(f.pad + f.message) + f.end|
  {
  }

  lemma StatusLineIs(s: seq<Byte>, minor: nat, c: nat, status: nat, text: seq<Byte>, h: nat)
    requires Version(s, 0) == Ok(minor) && 8 < |s| && s[8] == SP && SkipSpaces(s, 9) == Ok(c)
    requires Status(s, c) == Ok(status) && TextLine(s, c + 3) == Ok((text, h)) && (text != [] ==> text[0] == SP)
    ensures StatusLine(s) == Ok(((minor, status, TrimSpaces(text)), h))
  {
    hide Version, SkipSpaces, Status, TextLine, TrimSpaces;
  }

  /** Whatever has the form of a response is accepted as what it means, and none of what follows it is consumed. */
  lemma ResponseAt(s: seq<Byte>, f: ResponseForm, max: nat)
    requires ValidResponse(f) && At(s, 0, PrintResponseForm(f))
    ensures ParseResponse(s, max) == if |f.block.lines| <= max then Ok(ResponseOf(f)) else Bad
  {
    hide StatusLine, Headers, At, PrintVersion, PrintStatus, All;
    assert PrintResponseForm(f) == PrintStatusLine(f) + PrintBlock(f.block);
    hide PrintStatusLine;
    AtSplit(s, 0, PrintStatusLine(f), PrintBlock(f.block));
    StatusLineAt(s, f);
    BlockAt(s, |PrintStatusLine(f)|, f.block, max, []);
    HeadersBe(s, |PrintStatusLine(f)|, max, f.block);
  }

  /** And nothing else is: whatever is accepted begins with a response of that meaning. */
  lemma OnlyResponses(s: seq<Byte>, max: nat) returns (f: ResponseForm)
    requires ParseResponse(s, max).Ok?
    ensures ValidResponse(f) && At(s, 0, PrintResponseForm(f)) && |f.block.lines| <= max
    ensures ParseResponse(s, max) == Ok(ResponseOf(f))
  {
    hide StatusLine, Headers, At, All;
    var h := StatusLine(s).value.1;
    var (hs, n) := Headers(s, h, max, []).value;
    HeadersOk(s, h, max, hs, n);
    var block := OnlyBlocks(s, h, max, [], hs, n);
    f := OnlyStatusLines(s, block);
    assert PrintResponseForm(f) == PrintStatusLine(f) + PrintBlock(block);
    AtSplit(s, 0, PrintStatusLine(f), PrintBlock(block));
    ResponseAt(s, f, max);
  }

  lemma OnlyStatusLines(s: seq<Byte>, block: Block) returns (f: ResponseForm)
    requires StatusLine(s).Ok? && ValidBlock(block)
    ensures ValidResponse(f) && f.block == block && At(s, 0, PrintStatusLine(f))
    ensures StatusLine(s).value.1 == |PrintStatusLine(f)|
  {
    hide At, All, TextLine, TrimSpaces, Status, Version, SkipSpaces;
    var minor := Version(s, 0).value;
    var c := SkipSpaces(s, 9).value;
    var status := Status(s, c).value;
    var (msg, h) := TextLine(s, c + 3).value;
    var end := OnlyTextLines(s, c + 3);
    var pad := TrimSpacesOnly(msg);
    f := ResponseForm(minor, s[8..c], status, pad, TrimSpaces(msg), end, block);
    VersionIs(s, 0, minor);
    StatusIs(s, c, status);
    OnlyGaps(s, 8, c);
    AllJoin(pad, f.message, Text);
    AtSplit(s, c, PrintStatus(status), msg + end);
    AtSplit(s, 8, f.gap, PrintMessage(f));
    AtSplit(s, 0, PrintVersion(minor), f.gap + PrintMessage(f));
    MessageSetOff(msg, pad, f.message);
  }

  lemma MessageSetOff(msg: seq<Byte>, pad: seq<Byte>, message: seq<Byte>)
    requires msg == pad + message && (msg != [] ==> msg[0] == SP) && (message != [] ==> !Space(message[0]))
    ensures message != [] ==> pad != []
  {
  }

  lemma OnlyGaps(s: seq<Byte>, i: nat, c: nat)
    requires i < |s| && s[i] == SP && SkipSpaces(s, i + 1) == Ok(c)
    ensures i < c <= |s| && All(s[i..c], Spaces) && At(s, i, s[i..c])
  {
    SkipSpacesIs(s, i + 1, c);
    AtAll(s, i, s[i..c], Spaces);
  }
}
