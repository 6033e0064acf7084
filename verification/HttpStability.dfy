/** What the parser decides on a buffer it decides on every extension, and on every cut past what it consumed. */
module HttpStability {
  import opened Bytes
  import opened HttpSyntax

  /** The two buffers have their first `k` octets in common. */
  ghost predicate Common(s: seq<Byte>, t: seq<Byte>, k: nat) {
    k <= |s| && k <= |t| && forall j | 0 <= j < k :: s[j] == t[j]
  }

  /** A scanner's answer rests on the first `k` octets only. */
  ghost predicate Rests(r: Parse<nat>, s: seq<Byte>, k: nat) {
    !r.Partial? && (r.Ok? ==> r.value < k) && (r.Bad? ==> k == |s|)
  }

  ghost predicate RestsAt<T>(r: Parse<(T, nat)>, s: seq<Byte>, k: nat) {
    !r.Partial? && (r.Ok? ==> r.value.1 <= k) && (r.Bad? ==> k == |s|)
  }

  lemma SliceCommon(s: seq<Byte>, t: seq<Byte>, i: nat, j: nat, k: nat)
    requires Common(s, t, k) && i <= j <= k
    ensures s[i..j] == t[i..j]
  {
  }

  lemma EolCommon(s: seq<Byte>, t: seq<Byte>, i: nat, k: nat)
    requires Common(s, t, k) && !Eol(s, i).Partial?
    requires if Eol(s, i).Ok? then Eol(s, i).value <= k else k == |s|
    ensures Eol(t, i) == Eol(s, i)
  {
  }

  lemma {:induction false} TokenEndCommon(s: seq<Byte>, t: seq<Byte>, i: nat, stop: Byte, k: nat)
    requires Common(s, t, k) && Rests(TokenEnd(s, i, stop), s, k)
    ensures TokenEnd(t, i, stop) == TokenEnd(s, i, stop)
    decreases |s| - i
  {
    if s[i] != stop && TokenChar(s[i]) {
      TokenEndCommon(s, t, i + 1, stop, k);
    }
  }

  lemma {:induction false} SkipSpacesCommon(s: seq<Byte>, t: seq<Byte>, i: nat, k: nat)
    requires Common(s, t, k) && Rests(SkipSpaces(s, i), s, k)
    ensures SkipSpaces(t, i) == SkipSpaces(s, i)
    decreases |s| - i
  {
    if s[i] == SP {
      SkipSpacesCommon(s, t, i + 1, k);
    }
  }

  lemma {:induction false} SkipBlanksCommon(s: seq<Byte>, t: seq<Byte>, i: nat, k: nat)
    requires Common(s, t, k) && Rests(SkipBlanks(s, i), s, k)
    ensures SkipBlanks(t, i) == SkipBlanks(s, i)
    decreases |s| - i
  {
    if Blank(s[i]) {
      SkipBlanksCommon(s, t, i + 1, k);
    }
  }

  lemma {:induction false} PathEndCommon(s: seq<Byte>, t: seq<Byte>, i: nat, k: nat)
    requires Common(s, t, k) && Rests(PathEnd(s, i), s, k)
    ensures PathEnd(t, i) == PathEnd(s, i)
    decreases |s| - i
  {
    if s[i] > SP && s[i] != DEL {
      PathEndCommon(s, t, i + 1, k);
    }
  }

  lemma {:induction false} TextEndCommon(s: seq<Byte>, t: seq<Byte>, i: nat, k: nat)
    requires Common(s, t, k) && Rests(TextEnd(s, i), s, k)
    ensures TextEnd(t, i) == TextEnd(s, i)
    decreases |s| - i
  {
    if !Control(s[i]) {
      TextEndCommon(s, t, i + 1, k);
    }
  }

  lemma TextLineCommon(s: seq<Byte>, t: seq<Byte>, i: nat, k: nat)
    requires Common(s, t, k) && RestsAt(TextLine(s, i), s, k)
    ensures TextLine(t, i) == TextLine(s, i)
  {
    TextEndCommon(s, t, i, k);
    var e := TextEnd(s, i).value;
    EolCommon(s, t, e, k);
    assert s[i..e] == t[i..e];
  }

  lemma FieldCommon(s: seq<Byte>, t: seq<Byte>, name: seq<Byte>, i: nat, k: nat)
    requires Common(s, t, k) && RestsAt(Field(s, name, i), s, k)
    ensures Field(t, name, i) == Field(s, name, i)
  {
    TextLineCommon(s, t, i, k);
  }

  lemma HeaderLineCommon(s: seq<Byte>, t: seq<Byte>, i: nat, first: bool, k: nat)
    requires i < k && Common(s, t, k) && RestsAt(HeaderLine(s, i, first), s, k)
    ensures HeaderLine(t, i, first) == HeaderLine(s, i, first)
  {
    hide TokenEnd, SkipBlanks, Field;
    if !first && Blank(s[i]) {
      FieldCommon(s, t, [], i, k);
    } else {
      TokenEndCommon(s, t, i, COLON, k);
      if TokenEnd(s, i, COLON).Ok? && TokenEnd(s, i, COLON).value > i {
        var c := TokenEnd(s, i, COLON).value;
        SkipBlanksCommon(s, t, c + 1, k);
        assert s[i..c] == t[i..c];
        FieldCommon(s, t, s[i..c], SkipBlanks(s, c + 1).value, k);
      }
    }
  }

  lemma {:induction false} HeadersCommon(s: seq<Byte>, t: seq<Byte>, i: nat, max: nat, acc: seq<Header>, k: nat)
    requires Common(s, t, k) && RestsAt(Headers(s, i, max, acc), s, k)
    ensures Headers(t, i, max, acc) == Headers(s, i, max, acc)
    decreases |s| - i
  {
    if LineEnd(s[i]) {
      EolCommon(s, t, i, k);
    } else if max > 0 {
      HeaderLineCommon(s, t, i, acc == [], k);
      var r := HeaderLine(s, i, acc == []);
      if r.Ok? {
        HeadersCommon(s, t, r.value.1, max - 1, acc + [r.value.0], k);
      }
    }
  }

  lemma VersionCommon(s: seq<Byte>, t: seq<Byte>, i: nat, k: nat)
    requires Common(s, t, k) && !Version(s, i).Partial? && i + 9 <= k
    ensures Version(t, i) == Version(s, i)
  {
    assert s[i..i + 7] == t[i..i + 7];
  }

  ghost predicate RequestRests(r: Parse<Request>, s: seq<Byte>, k: nat) {
    !r.Partial? && (r.Ok? ==> r.value.length <= k) && (r.Bad? ==> k == |s|)
  }

  lemma MethodAndPathCommon(s: seq<Byte>, t: seq<Byte>, m: nat, k: nat)
    requires Common(s, t, k) && RestsAt(MethodAndPath(s, m), s, k)
    requires MethodAndPath(s, m).Ok? ==> MethodAndPath(s, m).value.1 < k
    ensures MethodAndPath(t, m) == MethodAndPath(s, m)
  {
    hide TokenEnd, SkipSpaces, PathEnd, Common;
    TokenEndCommon(s, t, m, SP, k);
    if TokenEnd(s, m, SP).Ok? {
      var m' := TokenEnd(s, m, SP).value;
      SkipSpacesCommon(s, t, m' + 1, k);
      SliceCommon(s, t, m, m', k);
      TargetCommon(s, t, SkipSpaces(s, m' + 1).value, k);
    }
  }

  /** The target at `p` and the spaces behind it. */
  lemma TargetCommon(s: seq<Byte>, t: seq<Byte>, p: nat, k: nat)
    requires Common(s, t, k) && Rests(PathEnd(s, p), s, k)
    requires PathEnd(s, p).Ok? ==> Rests(SkipSpaces(s, PathEnd(s, p).value + 1), s, k)
    ensures PathEnd(t, p) == PathEnd(s, p)
    ensures PathEnd(s, p).Ok? ==>
              var e := PathEnd(s, p).value;
              e < |t| && SkipSpaces(t, e + 1) == SkipSpaces(s, e + 1) && s[p..e] == t[p..e]
  {
    PathEndCommon(s, t, p, k);
    if PathEnd(s, p).Ok? {
      var e := PathEnd(s, p).value;
      SkipSpacesCommon(s, t, e + 1, k);
      SliceCommon(s, t, p, e, k);
    }
  }

  lemma VersionLineCommon(s: seq<Byte>, t: seq<Byte>, v: nat, k: nat)
    requires Common(s, t, k) && RestsAt(VersionLine(s, v), s, k)
    ensures VersionLine(t, v) == VersionLine(s, v)
  {
    VersionCommon(s, t, v, k);
    if Version(s, v).Ok? {
      EolCommon(s, t, v + 8, k);
    }
  }

  lemma RequestCommon(s: seq<Byte>, t: seq<Byte>, max: nat, k: nat)
    requires Common(s, t, k) && RequestRests(ParseRequest(s, max), s, k)
    ensures ParseRequest(t, max) == ParseRequest(s, max)
  {
    if LineEnd(s[0]) {
      EolCommon(s, t, 0, k);
    }
    if LeadingLine(s).Ok? {
      var m := LeadingLine(s).value;
      MethodAndPathCommon(s, t, m, k);
      if MethodAndPath(s, m).Ok? {
        var v := MethodAndPath(s, m).value.1;
        VersionLineCommon(s, t, v, k);
        if VersionLine(s, v).Ok? {
          HeadersCommon(s, t, VersionLine(s, v).value.1, max, [], k);
        }
      }
    }
  }

  lemma StatusLineCommon(s: seq<Byte>, t: seq<Byte>, k: nat)
    requires Common(s, t, k) && RestsAt(StatusLine(s), s, k)
    ensures StatusLine(t) == StatusLine(s)
  {
    VersionCommon(s, t, 0, k);
    if Version(s, 0).Ok? && s[8] == SP {
      SkipSpacesCommon(s, t, 9, k);
      var c := SkipSpaces(s, 9).value;
      if Status(s, c).Ok? {
        TextLineCommon(s, t, c + 3, k);
      }
    }
  }

  ghost predicate ResponseRests(r: Parse<Response>, s: seq<Byte>, k: nat) {
    !r.Partial? && (r.Ok? ==> r.value.length <= k) && (r.Bad? ==> k == |s|)
  }

  lemma ResponseCommon(s: seq<Byte>, t: seq<Byte>, max: nat, k: nat)
    requires Common(s, t, k) && ResponseRests(ParseResponse(s, max), s, k)
    ensures ParseResponse(t, max) == ParseResponse(s, max)
  {
    StatusLineCommon(s, t, k);
    if StatusLine(s).Ok? {
      HeadersCommon(s, t, StatusLine(s).value.1, max, [], k);
    }
  }

  /** Success and error are final: more input changes neither the fields nor the length nor the verdict. */
  lemma RequestStable(s: seq<Byte>, t: seq<Byte>, max: nat)
    ensures ParseRequest(s, max).Partial? || ParseRequest(s + t, max) == ParseRequest(s, max)
  {
    if !ParseRequest(s, max).Partial? {
      RequestCommon(s, s + t, max, |s|);
    }
  }

  lemma ResponseStable(s: seq<Byte>, t: seq<Byte>, max: nat)
    ensures ParseResponse(s, max).Partial? || ParseResponse(s + t, max) == ParseResponse(s, max)
  {
    if !ParseResponse(s, max).Partial? {
      ResponseCommon(s, s + t, max, |s|);
    }
  }

  lemma HeadersStable(s: seq<Byte>, t: seq<Byte>, max: nat)
    ensures Headers(s, 0, max, []).Partial? || Headers(s + t, 0, max, []) == Headers(s, 0, max, [])
  {
    if !Headers(s, 0, max, []).Partial? {
      HeadersCommon(s, s + t, 0, max, [], |s|);
    }
  }

  /** An accepted message of n octets: exactly its prefixes shorter than n are partial, all others parse as it does. */
  lemma RequestPrefixes(s: seq<Byte>, max: nat, m: nat)
    requires ParseRequest(s, max).Ok? && m <= |s|
    ensures ParseRequest(s[..m], max) ==
            if m < ParseRequest(s, max).value.length then Partial else ParseRequest(s, max)
  {
    if m < ParseRequest(s, max).value.length {
      RequestStable(s[..m], s[m..], max);
      assert s[..m] + s[m..] == s;
    } else {
      RequestCommon(s, s[..m], max, m);
    }
  }

  lemma ResponsePrefixes(s: seq<Byte>, max: nat, m: nat)
    requires ParseResponse(s, max).Ok? && m <= |s|
    ensures ParseResponse(s[..m], max) ==
            if m < ParseResponse(s, max).value.length then Partial else ParseResponse(s, max)
  {
    if m < ParseResponse(s, max).value.length {
      ResponseStable(s[..m], s[m..], max);
      assert s[..m] + s[m..] == s;
    } else {
      ResponseCommon(s, s[..m], max, m);
    }
  }

  lemma HeadersPrefixes(s: seq<Byte>, max: nat, m: nat)
    requires Headers(s, 0, max, []).Ok? && m <= |s|
    ensures Headers(s[..m], 0, max, []) ==
            if m < Headers(s, 0, max, []).value.1 then Partial else Headers(s, 0, max, [])
  {
    if m < Headers(s, 0, max, []).value.1 {
      HeadersStable(s[..m], s[m..], max);
      assert s[..m] + s[m..] == s;
    } else {
      HeadersCommon(s, s[..m], 0, max, [], m);
    }
  }
}
