/** The early-out scan for a blank line never holds back or rejects a message the parser accepts. */
module HttpEarlyOut {
  import opened Bytes
  import opened HttpSyntax
  import opened HttpStability

  ghost predicate NoLineEnd(s: seq<Byte>, i: nat, j: nat) {
    i <= j <= |s| && forall k | i <= k < j :: !LineEnd(s[k])
  }

  lemma {:induction false} PassText(s: seq<Byte>, i: nat, j: nat, count: nat)
    requires count < 2 && i < j && NoLineEnd(s, i, j)
    ensures BlankLineEnd(s, i, count) == BlankLineEnd(s, j, 0)
    decreases j - i
  {
    if i + 1 < j {
      PassText(s, i + 1, j, 0);
    }
  }

  /** A non-empty line from `i` ending in an end of line up to `n`. */
  ghost predicate Line(s: seq<Byte>, i: nat, n: nat) {
    exists e :: i < e <= |s| && NoLineEnd(s, i, e) && Eol(s, e) == Ok(n)
  }

  lemma PassLine(s: seq<Byte>, i: nat, count: nat, n: nat)
    requires count < 2 && Line(s, i, n)
    ensures BlankLineEnd(s, i, count) == BlankLineEnd(s, n, 1)
  {
    var e :| i < e <= |s| && NoLineEnd(s, i, e) && Eol(s, e) == Ok(n);
    PassText(s, i, e, count);
  }

  lemma FieldIsText(s: seq<Byte>, name: seq<Byte>, i: nat, v: nat)
    requires Field(s, name, v).Ok? && i <= v && NoLineEnd(s, i, v) && i < |s| && !LineEnd(s[i])
    ensures Line(s, i, Field(s, name, v).value.1)
  {
    var e := TextEnd(s, v).value;
    assert NoLineEnd(s, i, e);
    assert Eol(s, e) == Ok(Field(s, name, v).value.1);
    assert LineEnd(s[e]);
  }

  lemma HeaderIsLine(s: seq<Byte>, i: nat, first: bool)
    requires i < |s| && !LineEnd(s[i]) && HeaderLine(s, i, first).Ok?
    ensures Line(s, i, HeaderLine(s, i, first).value.1)
  {
    if !first && Blank(s[i]) {
      FieldIsText(s, [], i, i);
    } else {
      var c := TokenEnd(s, i, COLON).value;
      var v := SkipBlanks(s, c + 1).value;
      assert NoLineEnd(s, i, c + 1) && NoLineEnd(s, c + 1, v);
      FieldIsText(s, s[i..c], i, v);
    }
  }

  /** Just behind an end of line, the scan stops where the header block does. */
  lemma {:induction false} HeadersEnd(s: seq<Byte>, i: nat, max: nat, acc: seq<Header>)
    requires Headers(s, i, max, acc).Ok?
    ensures BlankLineEnd(s, i, 1) == Ok(Headers(s, i, max, acc).value.1)
    decreases |s| - i
  {
    hide HeaderLine, Line;
    if !LineEnd(s[i]) {
      var (h, n) := HeaderLine(s, i, acc == []).value;
      HeaderIsLine(s, i, acc == []);
      PassLine(s, i, 1, n);
      HeadersEnd(s, n, max - 1, acc + [h]);
    }
  }

  lemma MethodAndPathIsText(s: seq<Byte>, m: nat)
    requires MethodAndPath(s, m).Ok?
    ensures NoLineEnd(s, m, MethodAndPath(s, m).value.1)
  {
    hide TokenEnd, SkipSpaces, PathEnd;
    var m' := TokenEnd(s, m, SP).value;
    var p := SkipSpaces(s, m' + 1).value;
    var p' := PathEnd(s, p).value;
    assert NoLineEnd(s, m, m' + 1) && NoLineEnd(s, m' + 1, p);
    assert NoLineEnd(s, p, p' + 1) && NoLineEnd(s, p' + 1, SkipSpaces(s, p' + 1).value);
  }

  lemma RequestLineIsLine(s: seq<Byte>, m: nat)
    requires MethodAndPath(s, m).Ok? && VersionLine(s, MethodAndPath(s, m).value.1).Ok?
    ensures Line(s, m, VersionLine(s, MethodAndPath(s, m).value.1).value.1)
  {
    hide MethodAndPath;
    var v := MethodAndPath(s, m).value.1;
    MethodAndPathIsText(s, m);
    assert NoLineEnd(s, v, v + 8);
    assert NoLineEnd(s, m, v + 8);
  }

  lemma RequestEnd(s: seq<Byte>, max: nat)
    requires ParseRequest(s, max).Ok?
    ensures BlankLineEnd(s, 0, 0) == Ok(ParseRequest(s, max).value.length)
    ensures ParseRequest(s, max).value.length > 4
  {
    var m := LeadingLine(s).value;
    var v := MethodAndPath(s, m).value.1;
    var h := VersionLine(s, v).value.1;
    RequestLineIsLine(s, m);
    PassLine(s, m, 0, h);
    PassLine(s, m, 1, h);
    HeadersEnd(s, h, max, []);
  }

  lemma ResponseEnd(s: seq<Byte>, max: nat)
    requires ParseResponse(s, max).Ok?
    ensures BlankLineEnd(s, 0, 0) == Ok(ParseResponse(s, max).value.length)
    ensures ParseResponse(s, max).value.length > 4
  {
    var h := StatusLine(s).value.1;
    var c := SkipSpaces(s, 9).value;
    var e := TextEnd(s, c + 3).value;
    assert NoLineEnd(s, 0, 8) && NoLineEnd(s, 8, c) && NoLineEnd(s, c, c + 3) && NoLineEnd(s, c + 3, e);
    assert NoLineEnd(s, 0, e) && Eol(s, e) == Ok(h);
    PassLine(s, 0, 0, h);
    HeadersEnd(s, h, max, []);
  }

  /** Started anywhere up to four octets before its end, even inside a CRLF, the scan falls into step. */
  lemma {:induction false} Resynchronise(s: seq<Byte>, i: nat, count: nat, q: nat, n: nat)
    requires count < 2 && BlankLineEnd(s, i, count) == Ok(n) && i <= q && q + 4 <= n
    ensures BlankLineEnd(s, q, 0) == Ok(n)
    decreases |s| - i
  {
    if i < |s| && !LineEnd(s[i]) {
      if i < q {
        Resynchronise(s, i + 1, 0, q, n);
      }
    } else {
      var next := Eol(s, i).value;
      if next <= q {
        Resynchronise(s, next, 1, q, n);
      }
    }
  }

  lemma EarlyOutEnd(s: seq<Byte>, lastLen: nat, n: nat)
    requires lastLen < n && 4 <= n && BlankLineEnd(s, 0, 0) == Ok(n)
    ensures IsComplete(s, lastLen) == Ok(n)
  {
    Resynchronise(s, 0, 0, if lastLen < 3 then 0 else lastLen - 3, n);
  }

  /** If the first `lastLen` octets were partial, the early-out finds exactly the end of an accepted request. */
  lemma RequestEarlyOut(s: seq<Byte>, max: nat, lastLen: nat)
    requires lastLen <= |s| && ParseRequest(s[..lastLen], max).Partial?
    ensures ParseRequest(s, max).Ok? ==> IsComplete(s, lastLen) == Ok(ParseRequest(s, max).value.length)
    ensures PhrRequest(s, max, lastLen).Ok? <==> ParseRequest(s, max).Ok?
    ensures ParseRequest(s, max).Ok? ==> PhrRequest(s, max, lastLen) == ParseRequest(s, max)
  {
    if ParseRequest(s, max).Ok? {
      RequestPrefixes(s, max, lastLen);
      RequestEnd(s, max);
      EarlyOutEnd(s, lastLen, ParseRequest(s, max).value.length);
    }
  }

  lemma ResponseEarlyOut(s: seq<Byte>, max: nat, lastLen: nat)
    requires lastLen <= |s| && ParseResponse(s[..lastLen], max).Partial?
    ensures ParseResponse(s, max).Ok? ==> IsComplete(s, lastLen) == Ok(ParseResponse(s, max).value.length)
    ensures PhrResponse(s, max, lastLen).Ok? <==> ParseResponse(s, max).Ok?
    ensures ParseResponse(s, max).Ok? ==> PhrResponse(s, max, lastLen) == ParseResponse(s, max)
  {
    if ParseResponse(s, max).Ok? {
      ResponsePrefixes(s, max, lastLen);
      ResponseEnd(s, max);
      EarlyOutEnd(s, lastLen, ParseResponse(s, max).value.length);
    }
  }

  /** A first header line has a name, a colon and an end of line. */
  lemma FirstLineLength(s: seq<Byte>)
    requires s != [] && HeaderLine(s, 0, true).Ok?
    ensures HeaderLine(s, 0, true).value.1 >= 3
  {
    hide TokenEnd, SkipBlanks;
  }

  lemma HeadersWithField(s: seq<Byte>, max: nat)
    requires Headers(s, 0, max, []).Ok? && !LineEnd(s[0])
    ensures Headers(s, 0, max, []).value.0 != [] && Headers(s, 0, max, []).value.1 >= 4
    ensures BlankLineEnd(s, 0, 0) == Ok(Headers(s, 0, max, []).value.1)
  {
    hide HeaderLine, Line, Eol, BlankLineEnd;
    var (h, n) := HeaderLine(s, 0, true).value;
    var acc := [] + [h];
    assert Headers(s, 0, max, []) == Headers(s, n, max - 1, acc);
    hide Headers;
    HeaderIsLine(s, 0, true);
    FirstLineLength(s);
    PassLine(s, 0, 0, n);
    HeadersEnd(s, n, max - 1, acc);
  }

  /**
   * For a bare header block it does not hold. If the first `lastLen` octets were partial and the block has now
   * arrived, the early-out stops at its end exactly when it has a field; and the block gets through exactly when it
   * has a field, or what follows it happens to bring another blank line.
   */
  lemma HeadersEarlyOut(s: seq<Byte>, max: nat, lastLen: nat)
    requires Headers(s, 0, max, []).Ok?
    requires lastLen <= |s| && Headers(s[..lastLen], 0, max, []).Partial?
    ensures var (hs, n) := Headers(s, 0, max, []).value;
            && (IsComplete(s, lastLen) == Ok(n) <==> hs != [])
            && (PhrHeaders(s, max, lastLen) == Headers(s, 0, max, []) <==>
                lastLen == 0 || hs != [] || BlankLineEnd(s, n, 1).Ok?)
  {
    HeadersPrefixes(s, max, lastLen);
    if !LineEnd(s[0]) {
      HeadersWithField(s, max);
      hide Headers;
      EarlyOutEnd(s, lastLen, Headers(s, 0, max, []).value.1);
    } else {
      var n := Headers(s, 0, max, []).value.1;
      assert Eol(s, 0) == Ok(n) && lastLen < 3;
      assert BlankLineEnd(s, 0, 0) == BlankLineEnd(s, n, 1);
    }
  }

  // ----- Rejections are final -----

  lemma {:induction false} BlankLineEndStable(s: seq<Byte>, t: seq<Byte>, i: nat, count: nat)
    requires count < 2 && !BlankLineEnd(s, i, count).Partial?
    ensures BlankLineEnd(s + t, i, count) == BlankLineEnd(s, i, count)
    decreases |s| - i
  {
    if i < |s| && !LineEnd(s[i]) {
      BlankLineEndStable(s, t, i + 1, 0);
    } else {
      assert Eol(s + t, i) == Eol(s, i);
      if Eol(s, i).Ok? && count == 0 {
        BlankLineEndStable(s, t, Eol(s, i).value, 1);
      }
    }
  }

  /** After a partial prefix, what the entry point rejects no further input makes a request. */
  lemma RequestRejectionIsFinal(s: seq<Byte>, t: seq<Byte>, max: nat, lastLen: nat)
    requires lastLen <= |s| && ParseRequest(s[..lastLen], max).Partial?
    requires PhrRequest(s, max, lastLen).Bad?
    ensures !ParseRequest(s + t, max).Ok? && !PhrRequest(s + t, max, lastLen).Ok?
  {
    hide ParseRequest;
    assert (s + t)[..lastLen] == s[..lastLen];
    RequestEarlyOut(s + t, max, lastLen);
    if IsComplete(s, lastLen).Bad? {
      BlankLineEndStable(s, t, if lastLen < 3 then 0 else lastLen - 3, 0);
    }
    RequestStable(s, t, max);
  }

  lemma ResponseRejectionIsFinal(s: seq<Byte>, t: seq<Byte>, max: nat, lastLen: nat)
    requires lastLen <= |s| && ParseResponse(s[..lastLen], max).Partial?
    requires PhrResponse(s, max, lastLen).Bad?
    ensures !ParseResponse(s + t, max).Ok? && !PhrResponse(s + t, max, lastLen).Ok?
  {
    hide ParseResponse;
    assert (s + t)[..lastLen] == s[..lastLen];
    ResponseEarlyOut(s + t, max, lastLen);
    if IsComplete(s, lastLen).Bad? {
      BlankLineEndStable(s, t, if lastLen < 3 then 0 else lastLen - 3, 0);
    }
    ResponseStable(s, t, max);
  }

  /** Nor does any further input make it a header block with fields; an empty block may be rejected. */
  lemma HeadersRejectionIsFinal(s: seq<Byte>, t: seq<Byte>, max: nat, lastLen: nat)
    requires lastLen <= |s| && Headers(s[..lastLen], 0, max, []).Partial?
    requires PhrHeaders(s, max, lastLen).Bad?
    ensures Headers(s + t, 0, max, []).Ok? ==> Headers(s + t, 0, max, []).value.0 == [] && lastLen > 0
  {
    hide Headers;
    assert (s + t)[..lastLen] == s[..lastLen];
    if Headers(s + t, 0, max, []).Ok? {
      HeadersEarlyOut(s + t, max, lastLen);
    }
    if IsComplete(s, lastLen).Bad? {
      BlankLineEndStable(s, t, if lastLen < 3 then 0 else lastLen - 3, 0);
    }
    HeadersStable(s, t, max);
  }

  // ----- What the scan finds, exactly -----

  /** Two line ends in a row, CRLF or LF each, end at `m`; the scan began at `i`. */
  predicate EndsBlank(s: seq<Byte>, i: nat, m: nat) {
    && i + 2 <= m <= |s| && s[m - 1] == 10
    && (s[m - 2] == 10 || (i + 3 <= m && s[m - 2] == 13 && s[m - 3] == 10))
  }

  /** Nothing of the kind ends at `p` or before, and each CR up to there has its LF. */
  ghost predicate Searched(s: seq<Byte>, i: nat, p: nat) {
    && i <= p <= |s| && (forall m | i <= m <= p :: !EndsBlank(s, i, m))
    && forall k | i <= k < p :: s[k] == 13 ==> k + 1 < |s| && s[k + 1] == 10
  }

  /** The first blank line, with no stray CR before it, ends at `n`. */
  ghost predicate FirstBlank(s: seq<Byte>, i: nat, n: nat) {
    n > 0 && EndsBlank(s, i, n) && Searched(s, i, n - 1)
  }

  /** A stray CR comes before any blank line. */
  ghost predicate StrayCr(s: seq<Byte>, i: nat) {
    exists k :: i <= k && k + 1 < |s| && Searched(s, i, k) && s[k] == 13 && s[k + 1] != 10
  }

  lemma TextNext(s: seq<Byte>, i: nat, p: nat)
    requires Searched(s, i, p) && p < |s| && s[p] != 10 && s[p] != 13
    ensures Searched(s, i, p + 1)
  {
  }

  lemma LfNext(s: seq<Byte>, i: nat, p: nat)
    requires Searched(s, i, p) && (p > i ==> s[p - 1] != 13) && p < |s| && s[p] == 10
    ensures if p > i && s[p - 1] == 10 then FirstBlank(s, i, p + 1) else Searched(s, i, p + 1)
  {
    assert EndsBlank(s, i, p + 1) <==> p > i && s[p - 1] == 10;
  }

  lemma CrLfNext(s: seq<Byte>, i: nat, p: nat)
    requires Searched(s, i, p) && (p > i ==> s[p - 1] != 13) && p + 1 < |s| && s[p] == 13 && s[p + 1] == 10
    ensures if p > i && s[p - 1] == 10 then FirstBlank(s, i, p + 2) else Searched(s, i, p + 2)
  {
    assert !EndsBlank(s, i, p + 1) && Searched(s, i, p + 1);
    assert EndsBlank(s, i, p + 2) <==> p > i && s[p - 1] == 10;
  }

  /** The input ends, or ends with a CR. */
  lemma NothingFound(s: seq<Byte>, i: nat, p: nat)
    requires Searched(s, i, p) && (p == |s| || (p + 1 == |s| && s[p] == 13))
    ensures (forall n :: !FirstBlank(s, i, n)) && !StrayCr(s, i)
  {
    if p < |s| {
      assert !EndsBlank(s, i, p + 1);
    }
  }

  lemma {:induction false} ScanFrom(s: seq<Byte>, i: nat, p: nat, count: nat)
    requires Searched(s, i, p) && (p > i ==> s[p - 1] != 13)
    requires count == if p > i && s[p - 1] == 10 then 1 else 0
    ensures var r := BlankLineEnd(s, p, count);
            && (r.Ok? ==> FirstBlank(s, i, r.value))
            && (r.Bad? ==> StrayCr(s, i))
            && (r.Partial? ==> (forall n :: !FirstBlank(s, i, n)) && !StrayCr(s, i))
    decreases |s| - p
  {
    assert i <= p <= |s|;
    if p < |s| && s[p] == 13 && p + 1 < |s| && s[p + 1] != 10 {
      assert StrayCr(s, i);
    }
    hide Searched, FirstBlank, StrayCr, EndsBlank;
    if p == |s| {
      NothingFound(s, i, p);
    } else if !LineEnd(s[p]) {
      TextNext(s, i, p);
      ScanFrom(s, i, p + 1, 0);
    } else if s[p] == 10 {
      LfNext(s, i, p);
      if count == 0 {
        ScanFrom(s, i, p + 1, 1);
      }
    } else if p + 1 < |s| && s[p + 1] == 10 {
      CrLfNext(s, i, p);
      if count == 0 {
        ScanFrom(s, i, p + 2, 1);
      }
    } else if p + 1 == |s| {
      NothingFound(s, i, p);
    }
  }

  lemma FirstBlankUnique(s: seq<Byte>, i: nat, n: nat, n': nat)
    requires FirstBlank(s, i, n) && FirstBlank(s, i, n')
    ensures n == n'
  {
  }

  lemma BlankOrStray(s: seq<Byte>, i: nat, n: nat)
    requires FirstBlank(s, i, n)
    ensures !StrayCr(s, i)
  {
  }

  /** The early-out answers with the end of the first blank line from three octets back; a stray CR before is an error. */
  lemma IsCompleteIs(s: seq<Byte>, lastLen: nat, n: nat)
    requires lastLen <= |s|
    ensures var i := if lastLen < 3 then 0 else lastLen - 3;
            && (IsComplete(s, lastLen) == Ok(n) <==> FirstBlank(s, i, n))
            && (IsComplete(s, lastLen) == Bad <==> StrayCr(s, i))
  {
    var i := if lastLen < 3 then 0 else lastLen - 3;
    ScanFrom(s, i, i, 0);
    var r := BlankLineEnd(s, i, 0);
    if r.Ok? {
      BlankOrStray(s, i, r.value);
      if FirstBlank(s, i, n) {
        FirstBlankUnique(s, i, n, r.value);
      }
    } else if FirstBlank(s, i, n) {
      BlankOrStray(s, i, n);
    }
  }

  /** The entry points consult the early-out first, if there was input before; only past it do they parse. */
  lemma EntryPointsAre(s: seq<Byte>, max: nat, lastLen: nat)
    requires lastLen <= |s|
    ensures var i := if lastLen < 3 then 0 else lastLen - 3;
            var request, response := PhrRequest(s, max, lastLen), PhrResponse(s, max, lastLen);
            var block := PhrHeaders(s, max, lastLen);
            if lastLen == 0 || exists n: nat :: FirstBlank(s, i, n) then
              request == ParseRequest(s, max) && response == ParseResponse(s, max) && block == Headers(s, 0, max, [])
            else if StrayCr(s, i) then request == Bad && response == Bad && block == Bad
            else request == Partial && response == Partial && block == Partial
  {
    hide ParseRequest, ParseResponse, Headers, IsComplete, FirstBlank, StrayCr;
    var i, r := if lastLen < 3 then 0 else lastLen - 3, IsComplete(s, lastLen);
    if n: nat :| FirstBlank(s, i, n) {
      IsCompleteIs(s, lastLen, n);
    } else {
      IsCompleteIs(s, lastLen, if r.Ok? then r.value else 0);
    }
  }
}
