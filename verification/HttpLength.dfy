/** The length of a request's body: how its fields spell it, and how the server reads it. */
module HttpLength {
  import opened Bytes
  import opened HttpSyntax

  // ----- As it is read -----

  // "content-length"
  const CONTENT_LENGTH: seq<Byte> := [99, 111, 110, 116, 101, 110, 116, 45, 108, 101, 110, 103, 116, 104]

  /** strncasecmp against the lower-case field name. */
  predicate IsContentLength(name: seq<Byte>) {
    EqualsLower(name, CONTENT_LENGTH)
  }

  /** std::from_chars: the leading digits, if there are any and their value fits 64 bits; else `old` stays. */
  function FromChars(v: seq<Byte>, old_: nat): nat {
    var n := DigitSpan(v);
    if n == 0 || Decimal(v[..n]) >= U64 then old_ else Decimal(v[..n])
  }

  function DigitSpan(v: seq<Byte>): (n: nat)
    ensures n <= |v| && forall i | 0 <= i < n :: Digit(v[i])
  {
    if v == [] || !Digit(v[0]) then 0 else 1 + DigitSpan(v[1..])
  }

  function Decimal(digits: seq<Byte>): nat
    requires forall i | 0 <= i < |digits| :: Digit(digits[i])
  {
    if digits == [] then 0 else
    assert Digit(digits[|digits| - 1]);
    var units: nat := digits[|digits| - 1] - DIGIT0;
    Decimal(digits[..|digits| - 1]) * 10 + units
  }

  /** The last usable Content-Length field decides; zero means there is no body. */
  function ContentLength(hs: seq<Header>): nat {
    if hs == [] then 0 else
    var before := ContentLength(hs[..|hs| - 1]);
    var h := hs[|hs| - 1];
    if IsContentLength(h.name) then FromChars(h.value, before) else before
  }

  // ----- As it is spelled -----

  predicate DecimalDigit(b: Byte) {
    48 <= b <= 57
  }

  /** The decimal digits of `n`, without leading zeros. */
  function PrintDecimal(n: nat): (d: seq<Byte>)
    ensures d != [] && forall i | 0 <= i < |d| :: DecimalDigit(d[i])
  {
    (if n < 10 then [] else PrintDecimal(n / 10)) + [48 + n % 10]
  }

  lemma {:induction false} DecimalRoundTrip(n: nat)
    ensures Decimal(PrintDecimal(n)) == n
  {
    var d := PrintDecimal(n);
    if n >= 10 {
      DecimalRoundTrip(n / 10);
      assert d[..|d| - 1] == PrintDecimal(n / 10);
    } else {
      assert d[..|d| - 1] == [];
    }
  }

  /** The field's name in any mixture of cases. */
  ghost predicate NamesLength(name: seq<Byte>) {
    && |name| == 14
    && forall i | 0 <= i < 14 :: name[i] == Ascii("content-length")[i] || name[i] == Ascii("CONTENT-LENGTH")[i]
  }

  ghost predicate NoLengthIn(hs: seq<Header>) {
    forall i | 0 <= i < |hs| :: !NamesLength(hs[i].name)
  }

  /** A Content-Length field with the digits of `n`. */
  function LengthField(n: nat): Header {
    Header(Ascii("Content-Length"), PrintDecimal(n))
  }

  /** The last Content-Length field spells `n`, or there is none and `n` is zero. */
  ghost predicate SpellsLength(hs: seq<Header>, n: nat) {
    || (n == 0 && NoLengthIn(hs))
    || exists k :: 0 <= k < |hs| && NamesLength(hs[k].name) && hs[k].value == PrintDecimal(n) && NoLengthIn(hs[k + 1..])
  }

  lemma LengthFieldSpells(before: seq<Header>, n: nat, after: seq<Header>)
    requires NoLengthIn(after)
    ensures SpellsLength(before + [LengthField(n)] + after, n)
  {
    var hs, k := before + [LengthField(n)] + after, |before|;
    assert hs[k] == LengthField(n) && hs[k + 1..] == after;
    UsualName();
  }

  lemma UsualName()
    ensures NamesLength(Ascii("Content-Length"))
  {
    assert Ascii("Content-Length") == [67, 111, 110, 116, 101, 110, 116, 45, 76, 101, 110, 103, 116, 104];
    assert Ascii("content-length") == [99, 111, 110, 116, 101, 110, 116, 45, 108, 101, 110, 103, 116, 104];
    assert Ascii("CONTENT-LENGTH") == [67, 79, 78, 84, 69, 78, 84, 45, 76, 69, 78, 71, 84, 72];
  }

  // ----- What is spelled is read -----

  lemma NameIsRead(name: seq<Byte>)
    ensures IsContentLength(name) <==> NamesLength(name)
  {
    assert Ascii("content-length") == CONTENT_LENGTH;
    UpperName();
    EitherCase(name, CONTENT_LENGTH, Ascii("CONTENT-LENGTH"));
    hide Ascii, EqualsLower;
  }

  lemma UpperName()
    ensures var upper := Ascii("CONTENT-LENGTH");
            |upper| == 14 && forall i | 0 <= i < 14 ::
              if 97 <= CONTENT_LENGTH[i] <= 122 then upper[i] == CONTENT_LENGTH[i] - 32
              else upper[i] == CONTENT_LENGTH[i] && !(65 <= CONTENT_LENGTH[i] <= 90)
  {
    assert Ascii("CONTENT-LENGTH") == [67, 79, 78, 84, 69, 78, 84, 45, 76, 69, 78, 71, 84, 72];
  }

  lemma {:induction false} SpanIs(v: seq<Byte>, n: nat)
    requires n <= |v| && (forall i | 0 <= i < n :: DecimalDigit(v[i])) && (n < |v| ==> !DecimalDigit(v[n]))
    ensures DigitSpan(v) == n
  {
    if n > 0 {
      SpanIs(v[1..], n - 1);
    }
  }

  lemma {:induction false} LeadingZeros(z: nat, d: seq<Byte>, all: seq<Byte>)
    requires all == seq(z, _ => 48) + d
    requires (forall i | 0 <= i < |d| :: Digit(d[i])) && forall i | 0 <= i < |all| :: Digit(all[i])
    ensures Decimal(all) == Decimal(d)
    decreases |d| + z
  {
    if d != [] {
      var n := |d| - 1;
      assert all[..|all| - 1] == seq(z, _ => 48) + d[..n];
      LeadingZeros(z, d[..n], all[..|all| - 1]);
    } else if z > 0 {
      assert all[..|all| - 1] == seq(z - 1, _ => 48) + d;
      LeadingZeros(z - 1, d, all[..|all| - 1]);
    } else {
      assert all == d;
    }
  }

  lemma AllDecimal(z: nat, n: nat)
    ensures var d := seq(z, _ => 48) + PrintDecimal(n);
            && d != [] && (forall i | 0 <= i < |d| :: DecimalDigit(d[i])) && (forall i | 0 <= i < |d| :: Digit(d[i]))
            && Decimal(d) == n
  {
    var zeros, p := seq(z, _ => 48), PrintDecimal(n);
    var d := zeros + p;
    forall i | 0 <= i < |d| ensures DecimalDigit(d[i]) && Digit(d[i]) {
      assert i >= z ==> d[i] == p[i - z] && DecimalDigit(p[i - z]);
    }
    forall i | 0 <= i < |p| ensures Digit(p[i]) {
      assert DecimalDigit(p[i]);
    }
    LeadingZeros(z, p, d);
    DecimalRoundTrip(n);
  }

  /** A value that starts with the digits of `n`, zeros before them or not: `n` is read unless it exceeds 64 bits. */
  lemma ValueIsRead(z: nat, n: nat, rest: seq<Byte>, old_: nat)
    requires rest != [] ==> !DecimalDigit(rest[0])
    ensures FromChars((seq(z, _ => 48) + PrintDecimal(n)) + rest, old_) == if n < U64 then n else old_
  {
    var d := seq(z, _ => 48) + PrintDecimal(n);
    AllDecimal(z, n);
    hide PrintDecimal, Decimal;
    SpanOf(d, rest);
    assert (d + rest)[..|d|] == d;
  }

  lemma SpanOf(d: seq<Byte>, rest: seq<Byte>)
    requires (forall i | 0 <= i < |d| :: DecimalDigit(d[i])) && (rest != [] ==> !DecimalDigit(rest[0]))
    ensures DigitSpan(d + rest) == |d|
  {
    forall i | 0 <= i < |d| ensures DecimalDigit((d + rest)[i]) {
      assert (d + rest)[i] == d[i];
    }
    SpanIs(d + rest, |d|);
  }

  /** A value that starts with no digit is not read. */
  lemma NoValueIsRead(v: seq<Byte>, old_: nat)
    requires v != [] ==> !DecimalDigit(v[0])
    ensures FromChars(v, old_) == old_
  {
    SpanIs(v, 0);
  }

  /** Fields of other names leave the length alone. */
  lemma {:induction false} OthersKeep(hs: seq<Header>, more: seq<Header>)
    requires NoLengthIn(more)
    ensures ContentLength(hs + more) == ContentLength(hs)
  {
    if more == [] {
      assert hs + more == hs;
    } else {
      var n := |more| - 1;
      assert (hs + more)[..|hs| + n] == hs + more[..n];
      OthersKeep(hs, more[..n]);
      NameIsRead(more[n].name);
    }
  }

  lemma LengthRead(hs: seq<Header>, h: Header)
    requires NamesLength(h.name)
    ensures ContentLength(hs + [h]) == FromChars(h.value, ContentLength(hs))
  {
    assert (hs + [h])[..|hs|] == hs;
    NameIsRead(h.name);
  }

  /** A length in plain digits is understood wherever its field stands, if it fits 64 bits. */
  lemma LengthUnderstood(before: seq<Header>, n: nat, after: seq<Header>)
    requires n < U64 && NoLengthIn(after)
    ensures ContentLength(before + [LengthField(n)] + after) == n
  {
    var f := LengthField(n);
    UsualName();
    OthersKeep(before + [f], after);
    LengthRead(before, f);
    DigitsAreRead(n, ContentLength(before));
  }

  lemma DigitsAreRead(n: nat, old_: nat)
    requires n < U64
    ensures FromChars(PrintDecimal(n), old_) == n
  {
    ValueIsRead(0, n, [], old_);
    assert (seq(0, _ => 48) + PrintDecimal(n)) + [] == PrintDecimal(n);
  }

  /** A field that spells no number, or one too large, leaves the length of the fields before it. */
  lemma UnusableKeeps(hs: seq<Header>, h: Header)
    requires NamesLength(h.name)
    requires || (h.value != [] ==> !DecimalDigit(h.value[0]))
             || exists n, rest ::
                  n >= U64 && h.value == PrintDecimal(n) + rest && (rest != [] ==> !DecimalDigit(rest[0]))
    ensures ContentLength(hs + [h]) == ContentLength(hs)
  {
    LengthRead(hs, h);
    if h.value != [] ==> !DecimalDigit(h.value[0]) {
      NoValueIsRead(h.value, ContentLength(hs));
    } else {
      var n, rest :| n >= U64 && h.value == PrintDecimal(n) + rest && (rest != [] ==> !DecimalDigit(rest[0]));
      ValueIsRead(0, n, rest, ContentLength(hs));
      assert seq(0, _ => 48) + PrintDecimal(n) == PrintDecimal(n);
    }
  }

  /** Whatever the fields spell is read. */
  lemma SpelledIsRead(hs: seq<Header>, n: nat)
    requires n < U64 && SpellsLength(hs, n)
    ensures ContentLength(hs) == n
  {
    if n == 0 && NoLengthIn(hs) {
      OthersKeep([], hs);
      assert [] + hs == hs;
    } else {
      var k :| 0 <= k < |hs| && NamesLength(hs[k].name) && hs[k].value == PrintDecimal(n) && NoLengthIn(hs[k + 1..]);
      assert hs == (hs[..k] + [hs[k]]) + hs[k + 1..];
      OthersKeep(hs[..k] + [hs[k]], hs[k + 1..]);
      LengthRead(hs[..k], hs[k]);
      DigitsAreRead(n, ContentLength(hs[..k]));
    }
  }
}
