/** The chunked transfer-coding decoder as an automaton over single octets (section 7.1 of RFC 9112). */
module ChunkedAutomaton {
  import opened Bytes

  datatype Phase =
    | Size | Ext | HeaderLF
    | Data | DataCR | DataLF
    | TrailerHead | TrailerMiddle

  const MAX_HEX := 16  // sizeof(size_t) * 2
  const SEMICOLON: Byte := 59

  function Pow16(n: nat): (p: nat)
    ensures p > 0
  {
    if n == 0 then 1 else 16 * Pow16(n - 1)
  }

  lemma {:induction false} Pow16Monotone(m: nat, n: nat)
    requires m <= n
    ensures Pow16(m) <= Pow16(n)
    decreases n
  {
    if m < n {
      Pow16Monotone(m, n - 1);
    }
  }

  lemma Pow16Word()
    ensures Pow16(MAX_HEX) == U64
  {
    assert Pow16(4) == 0x1_0000;
    assert Pow16(8) == 0x1_0000_0000;
    assert Pow16(12) == 0x1_0000_0000_0000;
  }

  lemma Pow16Fits(n: nat)
    requires n <= MAX_HEX
    ensures Pow16(n) <= U64
  {
    Pow16Word();
    Pow16Monotone(n, MAX_HEX);
  }

  /** The decoder's resumable state; `left` is bytes_left_in_chunk and `hex` is _hex_count. */
  datatype Core = Core(phase: Phase, left: nat, hex: nat) {
    /** What every reachable decoder satisfies, starting from the zero-filled one. */
    ghost predicate Valid() {
      && (phase == Size ==> hex <= MAX_HEX && left < Pow16(hex))
      && (phase != Size ==> hex == 0 && left < U64)
      && (phase == Data ==> left > 0)
      && (phase.DataCR? || phase.DataLF? || phase.TrailerHead? || phase.TrailerMiddle? ==> left == 0)
    }
  }

  const START := Core(Size, 0, 0)

  function DecodeHex(ch: Byte): (v: int)
    ensures -1 <= v < 16
  {
    if 48 <= ch <= 57 then ch - 48
    else if 65 <= ch <= 70 then ch - 65 + 10
    else if 97 <= ch <= 102 then ch - 97 + 10
    else -1
  }

  /** The hexadecimal digits in order, in either case, and no other octets. */
  lemma HexDigitsAre(b: Byte, k: nat)
    ensures k < 16 ==> DecodeHex(Ascii("0123456789abcdef")[k]) == k && DecodeHex(Ascii("0123456789ABCDEF")[k]) == k
    ensures DecodeHex(b) == -1 <==> !(48 <= b < 48 + 10 || 65 <= b < 65 + 6 || 97 <= b < 97 + 6)
  {
    assert Ascii("0123456789abcdef") == [48, 49, 50, 51, 52, 53, 54, 55, 56, 57, 97, 98, 99, 100, 101, 102];
    assert Ascii("0123456789ABCDEF") == [48, 49, 50, 51, 52, 53, 54, 55, 56, 57, 65, 66, 67, 68, 69, 70];
  }

  predicate EndsSize(ch: Byte) {
    ch == SP || ch == HT || ch == SEMICOLON || ch == LF || ch == CR
  }

  /** `Next` and `Done` consume the octet; `Fail` leaves it unread. */
  datatype Outcome = Next(core: Core, out: seq<Byte>) | Done(core: Core) | Fail(core: Core)

  function StepExt(c: Core, b: Byte): (o: Outcome)
    requires c.phase == Ext && c.Valid()
    ensures o.core.Valid()
    ensures o.Next? ==> o.out == []
  {
    if b == CR then Next(c.(phase := HeaderLF), [])
    else if b == LF then Fail(c)
    else Next(c, [])
  }

  function StepSize(c: Core, b: Byte): (o: Outcome)
    requires c.phase == Size && c.Valid()
    ensures o.core.Valid()
    ensures o.Next? ==> o.out == []
  {
    var v := DecodeHex(b);
    if v == -1 then
      if c.hex == 0 || !EndsSize(b) then Fail(c)
      else (Pow16Fits(c.hex); StepExt(Core(Ext, c.left, 0), b))
    else if c.hex == MAX_HEX then Fail(c)
    else Next(Core(Size, c.left * 16 + v, c.hex + 1), [])
  }

  function Step(c: Core, trailer: bool, b: Byte): (o: Outcome)
    requires c.Valid()
    ensures o.core.Valid()
    ensures o.Next? ==> |o.out| <= 1
  {
    match c.phase
    case Size => StepSize(c, b)
    case Ext => StepExt(c, b)
    case HeaderLF =>
      if b != LF then Fail(c)
      else if c.left > 0 then Next(c.(phase := Data), [])
      else if trailer then Next(c.(phase := TrailerHead), [])
      else Done(c)
    case Data =>
      Next(if c.left == 1 then Core(DataCR, 0, 0) else c.(left := c.left - 1), [b])
    case DataCR => if b == CR then Next(c.(phase := DataLF), []) else Fail(c)
    case DataLF => if b == LF then Next(START, []) else Fail(c)
    case TrailerHead =>
      if b == CR then Next(c, [])
      else if b == LF then Done(c)
      else Next(c.(phase := TrailerMiddle), [])
    case TrailerMiddle => Next(if b == LF then c.(phase := TrailerHead) else c, [])
  }

  datatype Verdict = More | Complete | Malformed

  /** What decoding a stretch of input yields; `used` octets of it were consumed. */
  datatype Report = Report(core: Core, out: seq<Byte>, used: nat, verdict: Verdict) {
    function After(earlier: seq<Byte>, n: nat): Report {
      Report(core, earlier + out, n + used, verdict)
    }
  }

  lemma AfterAfter(r: Report, a: seq<Byte>, m: nat, b: seq<Byte>, n: nat)
    ensures r.After(a, m).After(b, n) == r.After(b + a, n + m)
  {
    assert b + (a + r.out) == (b + a) + r.out;
  }

  function Run(c: Core, trailer: bool, s: seq<Byte>): (r: Report)
    requires c.Valid()
    ensures r.core.Valid() && |r.out| <= r.used <= |s|
    ensures r.verdict == More ==> r.used == |s|
    decreases |s|
  {
    if s == [] then Report(c, [], 0, More) else
    match Step(c, trailer, s[0])
    case Next(c', o) => Run(c', trailer, s[1..]).After(o, 1)
    case Done(c') => Report(c', [], 1, Complete)
    case Fail(c') => Report(c', [], 0, Malformed)
  }

  /** Decoding may be suspended and resumed anywhere: the state carries all that matters. */
  lemma {:induction false} RunConcat(c: Core, trailer: bool, a: seq<Byte>, b: seq<Byte>)
    requires c.Valid()
    ensures var r := Run(c, trailer, a);
            Run(c, trailer, a + b) == if r.verdict == More then Run(r.core, trailer, b).After(r.out, |a|) else r
    decreases |a|
  {
    if a == [] {
      assert a + b == b;
    } else {
      assert (a + b)[1..] == a[1..] + b;
      var o := Step(c, trailer, a[0]);
      if o.Next? {
        RunConcat(o.core, trailer, a[1..], b);
        var r := Run(o.core, trailer, a[1..]);
        AfterAfter(Run(r.core, trailer, b), r.out, |a| - 1, o.out, 1);
      }
    }
  }

  ghost predicate HexDigits(s: seq<Byte>) {
    forall i | 0 <= i < |s| :: DecodeHex(s[i]) >= 0
  }

  ghost function HexValue(digits: seq<Byte>): nat
    requires HexDigits(digits)
  {
    if digits == [] then 0 else HexValue(digits[..|digits| - 1]) * 16 + DecodeHex(digits[|digits| - 1])
  }

  /** A size as it is usually spelled. */
  function PrintHex(n: nat): (d: seq<Byte>)
    ensures d != []
  {
    (if n < 16 then [] else PrintHex(n / 16)) + [Ascii("0123456789abcdef")[n % 16]]
  }

  lemma HexSnoc(digits: seq<Byte>, last: Byte)
    requires HexDigits(digits) && DecodeHex(last) >= 0
    ensures HexDigits(digits + [last]) && HexValue(digits + [last]) == HexValue(digits) * 16 + DecodeHex(last)
  {
    hide DecodeHex;
    assert (digits + [last])[..|digits|] == digits;
  }

  lemma {:induction false} HexRoundTrip(n: nat)
    ensures HexDigits(PrintHex(n)) && HexValue(PrintHex(n)) == n
  {
    hide DecodeHex, Ascii;
    var before := if n < 16 then [] else PrintHex(n / 16);
    var last := Ascii("0123456789abcdef")[n % 16];
    HexDigitsAre(0, n % 16);
    if n >= 16 {
      HexRoundTrip(n / 16);
    }
    assert PrintHex(n) == before + [last];
    HexSnoc(before, last);
  }

  /**
   * At an error the decoder stands where the octets before it led, except that the LF that is wrong behind a size has
   * ended that size; and there it makes no further progress.
   */
  lemma {:induction false} ErrorsStick(c: Core, trailer: bool, s: seq<Byte>)
    requires c.Valid() && Run(c, trailer, s).verdict == Malformed
    ensures var r := Run(c, trailer, s);
            && r.used < |s|
            && var before := Run(c, trailer, s[..r.used]);
               && before.verdict == More && before.out == r.out
               && r.core == Stuck(before.core, s[r.used])
               && Run(r.core, trailer, s[r.used..]) == Report(r.core, [], 0, Malformed)
    decreases |s|
  {
    hide Step, Stuck;
    var o := Step(c, trailer, s[0]);
    if o.Next? {
      ErrorsStick(o.core, trailer, s[1..]);
      var r := Run(o.core, trailer, s[1..]);
      var front := s[..r.used + 1];
      assert front[0] == s[0] && front[1..] == s[1..][..r.used] && s[r.used + 1..] == s[1..][r.used..];
      assert Run(c, trailer, front) == Run(o.core, trailer, front[1..]).After(o.out, 1);
    } else {
      FailStays(c, trailer, s[0]);
      assert s[..0] == [] && s[0..] == s;
    }
  }

  function Stuck(c: Core, b: Byte): Core {
    if c.phase == Size && c.hex > 0 && b == 10 then Core(Ext, c.left, 0) else c
  }

  lemma FailStays(c: Core, trailer: bool, b: Byte)
    requires c.Valid() && Step(c, trailer, b).Fail?
    ensures var d := Step(c, trailer, b).core; d == Stuck(c, b) && Step(d, trailer, b) == Fail(d)
  {
  }

  lemma EmptyRun(c: Core, trailer: bool)
    requires c.Valid()
    ensures Run(c, trailer, []) == Report(c, [], 0, More)
  {
  }

  lemma NextDigit(c: Core, trailer: bool, digit: Byte)
    requires c.Valid() && c.phase == Size && DecodeHex(digit) >= 0
    ensures Run(c, trailer, [digit]) ==
            if c.hex < MAX_HEX then Report(Core(Size, c.left * 16 + DecodeHex(digit), c.hex + 1), [], 1, More)
            else Report(c, [], 0, Malformed)
  {
    assert [digit][1..] == [];
  }

  /** Reading a size: the accumulator is the numeral read so far, in at most 16 digits, so it fits 64 bits. */
  lemma {:induction false} SizeAccumulates(trailer: bool, digits: seq<Byte>)
    requires HexDigits(digits)
    ensures |digits| <= MAX_HEX ==>
              Run(START, trailer, digits) == Report(Core(Size, HexValue(digits), |digits|), [], |digits|, More)
    ensures |digits| <= MAX_HEX ==> HexValue(digits) < Pow16(|digits|) <= U64
    ensures |digits| > MAX_HEX ==> Run(START, trailer, digits).verdict == Malformed
  {
    hide Run, Step;
    if digits == [] {
      EmptyRun(START, trailer);
    } else {
      var n := |digits| - 1;
      assert digits == digits[..n] + [digits[n]];
      SizeAccumulates(trailer, digits[..n]);
      RunConcat(START, trailer, digits[..n], [digits[n]]);
      if n <= MAX_HEX {
        NextDigit(Core(Size, HexValue(digits[..n]), n), trailer, digits[n]);
      }
    }
    if |digits| <= MAX_HEX {
      Pow16Fits(|digits|);
    }
  }
}
