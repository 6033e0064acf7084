/** A partial answer is never given needlessly: nine NUL octets decide it, so it is exactly the answer not final. */
module HttpUndecided {
  import opened Bytes
  import opened HttpSyntax
  import opened HttpStability

  const NULS: seq<Byte> := [0, 0, 0, 0, 0, 0, 0, 0, 0]

  lemma {:induction false} TokenUndecided(s: seq<Byte>, i: nat, stop: Byte)
    requires i <= |s| && stop != 0 && TokenEnd(s, i, stop).Partial?
    ensures TokenEnd(s + NULS, i, stop) == Bad
    decreases |s| - i
  {
    if i < |s| {
      TokenUndecided(s, i + 1, stop);
    }
  }

  lemma {:induction false} SpacesUndecided(s: seq<Byte>, i: nat)
    requires i <= |s| && SkipSpaces(s, i).Partial?
    ensures SkipSpaces(s + NULS, i) == Ok(|s|)
    decreases |s| - i
  {
    if i < |s| {
      SpacesUndecided(s, i + 1);
    }
  }

  lemma {:induction false} BlanksUndecided(s: seq<Byte>, i: nat)
    requires i <= |s| && SkipBlanks(s, i).Partial?
    ensures SkipBlanks(s + NULS, i) == Ok(|s|)
    decreases |s| - i
  {
    if i < |s| {
      BlanksUndecided(s, i + 1);
    }
  }

  lemma {:induction false} PathUndecided(s: seq<Byte>, i: nat)
    requires i <= |s| && PathEnd(s, i).Partial?
    ensures PathEnd(s + NULS, i) == Bad
    decreases |s| - i
  {
    if i < |s| {
      PathUndecided(s, i + 1);
    }
  }

  lemma {:induction false} TextUndecided(s: seq<Byte>, i: nat)
    requires i <= |s| && TextEnd(s, i).Partial?
    ensures TextEnd(s + NULS, i) == Ok(|s|)
    decreases |s| - i
  {
    if i < |s| {
      TextUndecided(s, i + 1);
    }
  }

  lemma EolUndecided(s: seq<Byte>, i: nat)
    requires i <= |s| && (Eol(s, i).Partial? || i == |s|)
    ensures Eol(s + NULS, i) == Bad
  {
  }

  lemma VersionUndecided(s: seq<Byte>, i: nat)
    requires i <= |s| && Version(s, i).Partial?
    ensures Version(s + NULS, i) == Bad || (i + 8 == |s| && Eol(s + NULS, i + 8) == Bad && (s + NULS)[i + 8] == 0)
  {
    if i + 8 > |s| {
      var k := |s| - i;
      assert (s + NULS)[|s|] == 0;
      if k < 7 {
        assert (s + NULS)[i..i + 7][k] == 0;
      }
    }
  }

  lemma TextLineUndecided(s: seq<Byte>, i: nat)
    requires i <= |s| && (TextLine(s, i).Partial? || i == |s|)
    ensures TextLine(s + NULS, i) == Bad
  {
    if i == |s| || TextEnd(s, i).Partial? {
      if i < |s| {
        TextUndecided(s, i);
      }
      assert TextEnd(s + NULS, i) == Ok(|s|);
      EolUndecided(s, |s|);
    } else {
      TextEndCommon(s, s + NULS, i, |s|);
      EolUndecided(s, TextEnd(s, i).value);
    }
  }

  lemma HeaderLineUndecided(s: seq<Byte>, i: nat, first: bool)
    requires i < |s| && HeaderLine(s, i, first).Partial?
    ensures HeaderLine(s + NULS, i, first) == Bad
  {
    hide TokenEnd, SkipBlanks, TextLine;
    var t := s + NULS;
    if !first && Blank(s[i]) {
      TextLineUndecided(s, i);
    } else if TokenEnd(s, i, COLON).Partial? {
      TokenUndecided(s, i, COLON);
    } else {
      TokenEndCommon(s, t, i, COLON, |s|);
      var c := TokenEnd(s, i, COLON).value;
      if SkipBlanks(s, c + 1).Partial? {
        BlanksUndecided(s, c + 1);
        TextLineUndecided(s, |s|);
      } else {
        SkipBlanksCommon(s, t, c + 1, |s|);
        TextLineUndecided(s, SkipBlanks(s, c + 1).value);
      }
    }
  }

  lemma {:induction false} HeadersUndecided(s: seq<Byte>, i: nat, max: nat, acc: seq<Header>)
    requires i <= |s| && Headers(s, i, max, acc).Partial?
    ensures Headers(s + NULS, i, max, acc) == Bad
    decreases |s| - i
  {
    hide HeaderLine, Eol;
    var t := s + NULS;
    if i == |s| {
      NulIsNoLine(s, acc == []);
    } else if LineEnd(s[i]) {
      EolUndecided(s, i);
    } else {
      var r := HeaderLine(s, i, acc == []);
      if r.Partial? {
        HeaderLineUndecided(s, i, acc == []);
      } else {
        HeaderLineCommon(s, t, i, acc == [], |s|);
        HeadersUndecided(s, r.value.1, max - 1, acc + [r.value.0]);
      }
    }
  }

  lemma NulIsNoLine(s: seq<Byte>, first: bool)
    ensures HeaderLine(s + NULS, |s|, first) == Bad
  {
    assert (s + NULS)[|s|] == 0;
  }

  lemma MethodAndPathUndecided(s: seq<Byte>, m: nat)
    requires m <= |s| && MethodAndPath(s, m).Partial?
    ensures var r := MethodAndPath(s + NULS, m); r == Bad || (r.Ok? && r.value.1 == |s|)
  {
    hide TokenEnd, SkipSpaces;
    var t := s + NULS;
    if TokenEnd(s, m, SP).Partial? {
      TokenUndecided(s, m, SP);
    } else {
      TokenEndCommon(s, t, m, SP, |s|);
      var m' := TokenEnd(s, m, SP).value;
      if SkipSpaces(s, m' + 1).Partial? {
        SpacesUndecided(s, m' + 1);
        assert PathEnd(t, |s|) == Bad;
      } else {
        SkipSpacesCommon(s, t, m' + 1, |s|);
        TargetUndecided(s, SkipSpaces(s, m' + 1).value);
      }
    }
  }

  lemma TargetUndecided(s: seq<Byte>, p: nat)
    requires p <= |s| && (PathEnd(s, p).Ok? ==> SkipSpaces(s, PathEnd(s, p).value + 1).Partial?) && !PathEnd(s, p).Bad?
    ensures var r := PathEnd(s + NULS, p);
            r == Bad || (r.Ok? && SkipSpaces(s + NULS, r.value + 1) == Ok(|s|))
  {
    if PathEnd(s, p).Partial? {
      PathUndecided(s, p);
    } else {
      PathEndCommon(s, s + NULS, p, |s|);
      SpacesUndecided(s, PathEnd(s, p).value + 1);
    }
  }

  lemma VersionLineUndecided(s: seq<Byte>, v: nat)
    requires v <= |s| && (VersionLine(s, v).Partial? || v == |s|)
    ensures VersionLine(s + NULS, v) == Bad
  {
    if Version(s, v).Partial? {
      VersionUndecided(s, v);
    } else {
      VersionCommon(s, s + NULS, v, |s|);
      EolUndecided(s, v + 8);
    }
  }

  /** Whatever is partial is decided by what comes next, and so by nine NULs. */
  lemma RequestUndecided(s: seq<Byte>, max: nat)
    requires ParseRequest(s, max).Partial?
    ensures ParseRequest(s + NULS, max) == Bad
  {
    hide MethodAndPath, VersionLine, Headers;
    var t := s + NULS;
    if LeadingLine(s).Partial? {
      LeadUndecided(s);
    } else {
      LeadCommon(s);
      var m := LeadingLine(s).value;
      if MethodAndPath(s, m).Partial? {
        MethodAndPathUndecided(s, m);
        VersionLineUndecided(s, |s|);
      } else {
        MethodAndPathCommon(s, t, m, |s|);
        var v := MethodAndPath(s, m).value.1;
        if VersionLine(s, v).Partial? {
          VersionLineUndecided(s, v);
        } else {
          VersionLineCommon(s, t, v, |s|);
          HeadersUndecided(s, VersionLine(s, v).value.1, max, []);
        }
      }
    }
  }

  lemma LeadUndecided(s: seq<Byte>)
    requires LeadingLine(s).Partial?
    ensures LeadingLine(s + NULS) == Bad
         || (LeadingLine(s + NULS).Ok? && MethodAndPath(s + NULS, LeadingLine(s + NULS).value) == Bad)
  {
    if s == [] {
      assert s + NULS == NULS;
      assert TokenEnd(NULS, 0, SP) == Bad;
    } else {
      EolUndecided(s, 0);
    }
  }

  lemma LeadCommon(s: seq<Byte>)
    requires LeadingLine(s).Ok?
    ensures LeadingLine(s + NULS) == LeadingLine(s) && LeadingLine(s).value <= |s|
  {
  }

  lemma StatusLineUndecided(s: seq<Byte>)
    requires StatusLine(s).Partial?
    ensures StatusLine(s + NULS) == Bad
  {
    hide SkipSpaces, TextLine;
    var t := s + NULS;
    if Version(s, 0).Partial? {
      VersionUndecided(s, 0);
    } else {
      VersionCommon(s, t, 0, |s|);
      if SkipSpaces(s, 9).Partial? {
        SpacesUndecided(s, 9);
        assert t[|s|] == 0;
      } else {
        SkipSpacesCommon(s, t, 9, |s|);
        var c := SkipSpaces(s, 9).value;
        MessageUndecided(s, c);
      }
    }
  }

  lemma MessageUndecided(s: seq<Byte>, c: nat)
    requires c < |s| && (Status(s, c).Partial? || (Status(s, c).Ok? && TextLine(s, c + 3).Partial?))
    ensures Status(s + NULS, c) == Bad || TextLine(s + NULS, c + 3) == Bad
  {
    var t := s + NULS;
    if Status(s, c).Partial? {
      if c + 3 == |s| {
        TextLineUndecided(s, c + 3);
      } else {
        assert t[|s|] == 0;
      }
    } else {
      TextLineUndecided(s, c + 3);
    }
  }

  lemma ResponseUndecided(s: seq<Byte>, max: nat)
    requires ParseResponse(s, max).Partial?
    ensures ParseResponse(s + NULS, max) == Bad
  {
    hide StatusLine, Headers;
    if StatusLine(s).Partial? {
      StatusLineUndecided(s);
    } else {
      StatusLineCommon(s, s + NULS, |s|);
      HeadersUndecided(s, StatusLine(s).value.1, max, []);
    }
  }

  /** Exactly the answers that more input can change are partial. */
  lemma PartialIffNotFinal(s: seq<Byte>, max: nat)
    ensures ParseRequest(s, max).Partial? <==> exists t :: ParseRequest(s + t, max) != ParseRequest(s, max)
    ensures ParseResponse(s, max).Partial? <==> exists t :: ParseResponse(s + t, max) != ParseResponse(s, max)
    ensures Headers(s, 0, max, []).Partial? <==> exists t :: Headers(s + t, 0, max, []) != Headers(s, 0, max, [])
  {
    hide ParseRequest, ParseResponse, Headers;
    if ParseRequest(s, max).Partial? {
      RequestUndecided(s, max);
    }
    if ParseResponse(s, max).Partial? {
      ResponseUndecided(s, max);
    }
    if Headers(s, 0, max, []).Partial? {
      HeadersUndecided(s, 0, max, []);
    }
    forall t
      ensures ParseRequest(s, max).Partial? || ParseRequest(s + t, max) == ParseRequest(s, max)
      ensures ParseResponse(s, max).Partial? || ParseResponse(s + t, max) == ParseResponse(s, max)
      ensures Headers(s, 0, max, []).Partial? || Headers(s + t, 0, max, []) == Headers(s, 0, max, [])
    {
      RequestStable(s, t, max);
      ResponseStable(s, t, max);
      HeadersStable(s, t, max);
    }
  }
}
