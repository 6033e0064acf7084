/** The API key set: a strictly sorted vector searched by bisection, and the bearer token of a header. */
module ApiKeyAuth {
  import opened Bytes
  import opened HttpSyntax
  import opened Sequences
  import CopyOnWrite

  type Key = seq<Byte>

  /** std::string's order. */
  predicate Less(a: Key, b: Key) {
    if b == [] then false
    else if a == [] then true
    else a[0] < b[0] || (a[0] == b[0] && Less(a[1..], b[1..]))
  }

  /** Lexicographic: the keys agree up to some octet, where the first ends or has the smaller one. */
  lemma {:induction false} LessIsLexicographic(a: Key, b: Key)
    ensures Less(a, b) <==> exists n :: 0 <= n <= |a| && n < |b| && a[..n] == b[..n] && (n == |a| || a[n] < b[n])
  {
    if a != [] && b != [] && a[0] == b[0] {
      LessIsLexicographic(a[1..], b[1..]);
      if Less(a, b) {
        var n :| && 0 <= n <= |a[1..]| && n < |b[1..]| && a[1..][..n] == b[1..][..n]
                 && (n == |a[1..]| || a[1..][n] < b[1..][n]);
        assert a[..n + 1] == [a[0]] + a[1..][..n] && b[..n + 1] == [b[0]] + b[1..][..n];
      }
      forall n | 0 < n <= |a| && n < |b| && a[..n] == b[..n] && (n == |a| || a[n] < b[n]) ensures Less(a, b) {
        assert a[1..][..n - 1] == a[..n][1..] && b[1..][..n - 1] == b[..n][1..];
      }
    } else if a != [] && b != [] {
      if a[0] < b[0] {
        assert a[..0] == b[..0];
      }
      forall n | 0 < n <= |a| && n < |b| ensures a[..n] == b[..n] ==> a[0] == b[0] {
        FirstOfPrefix(a, b, n);
      }
    } else if b != [] {
      assert a[..0] == b[..0];
    }
  }

  lemma FirstOfPrefix(a: Key, b: Key, n: nat)
    requires 0 < n <= |a| && n <= |b|
    ensures a[..n] == b[..n] ==> a[0] == b[0]
  {
    assert a[..n][0] == a[0] && b[..n][0] == b[0];
  }

  lemma {:induction false} LessTotal(a: Key, b: Key)
    ensures Less(a, b) || Less(b, a) || a == b
    ensures !(Less(a, b) && Less(b, a)) && !Less(a, a)
  {
    if a != [] && b != [] && a[0] == b[0] {
      LessTotal(a[1..], b[1..]);
      assert a == [a[0]] + a[1..] && b == [b[0]] + b[1..];
    }
    if a != [] {
      LessTotal(a[1..], a[1..]);
    }
  }

  lemma {:induction false} LessTransitive(a: Key, b: Key, c: Key)
    requires Less(a, b) && Less(b, c)
    ensures Less(a, c)
  {
    if a != [] && a[0] == b[0] == c[0] {
      LessTransitive(a[1..], b[1..], c[1..]);
    }
  }

  /** Strictly ascending, hence without duplicates. */
  ghost predicate Sorted(keys: seq<Key>) {
    forall i, j :: 0 <= i < j < |keys| ==> Less(keys[i], keys[j])
  }

  /** Where std::lower_bound points: behind the keys smaller than `key`. */
  ghost predicate IsBound(keys: seq<Key>, key: Key, n: nat) {
    && n <= |keys|
    && (forall i :: 0 <= i < n ==> Less(keys[i], key))
    && (forall i :: n <= i < |keys| ==> !Less(keys[i], key))
  }

  /** Bisection; the middle key's order decides for all keys on its far side. */
  method LowerBound(keys: seq<Key>, key: Key) returns (n: nat)
    requires Sorted(keys)
    ensures IsBound(keys, key, n)
  {
    var lo, hi := 0, |keys|;
    while lo < hi
      invariant lo <= hi <= |keys|
      invariant forall i :: 0 <= i < lo ==> Less(keys[i], key)
      invariant forall i :: hi <= i < |keys| ==> !Less(keys[i], key)
    {
      var mid := (lo + hi) / 2;
      if Less(keys[mid], key) {
        forall i | 0 <= i < mid ensures Less(keys[i], key) {
          LessTransitive(keys[i], keys[mid], key);
        }
        lo := mid + 1;
      } else {
        forall i | mid < i < |keys| ensures !Less(keys[i], key) {
          if Less(keys[i], key) {
            LessTransitive(keys[mid], keys[i], key);
          }
        }
        hi := mid;
      }
    }
    return lo;
  }

  /** At the bound of a sorted vector, and nowhere else, the key can be found. */
  lemma FoundAtBound(keys: seq<Key>, key: Key, n: nat)
    requires Sorted(keys) && IsBound(keys, key, n)
    ensures key in keys <==> n < |keys| && keys[n] == key
  {
    if key in keys {
      var i :| 0 <= i < |keys| && keys[i] == key;
      LessTotal(key, key);
      if n < i {
        assert Less(keys[n], keys[i]);
      }
    }
  }

  /** std::binary_search */
  method BinarySearch(keys: seq<Key>, key: Key) returns (found: bool)
    requires Sorted(keys)
    ensures found <==> key in keys
  {
    var n := LowerBound(keys, key);
    FoundAtBound(keys, key, n);
    found := n < |keys| && !Less(key, keys[n]);
    if n < |keys| {
      LessTotal(key, keys[n]);
    }
  }

  ghost function Elements(keys: seq<Key>): set<Key> {
    set k | k in keys
  }

  /** A strictly sorted vector is determined by its set of keys. */
  lemma {:induction false} SortedUnique(a: seq<Key>, b: seq<Key>)
    requires Sorted(a) && Sorted(b) && Elements(a) == Elements(b)
    ensures a == b
    decreases |a|
  {
    NoElements(a);
    NoElements(b);
    if a != [] {
      SameLast(a, b);
      var x, n, m := a[|a| - 1], |a| - 1, |b| - 1;
      DropLast(a);
      DropLast(b);
      SortedUnique(a[..n], b[..m]);
      assert a == a[..n] + [x] && b == b[..m] + [x];
    }
  }

  lemma NoElements(a: seq<Key>)
    ensures Elements(a) == {} <==> a == []
  {
    assert a != [] ==> a[0] in Elements(a);
  }

  lemma NoneAboveLast(a: seq<Key>, y: Key)
    requires a != [] && Sorted(a) && y in Elements(a)
    ensures y == a[|a| - 1] || Less(y, a[|a| - 1])
  {
  }

  lemma SameLast(a: seq<Key>, b: seq<Key>)
    requires a != [] && b != [] && Sorted(a) && Sorted(b) && Elements(a) == Elements(b)
    ensures a[|a| - 1] == b[|b| - 1]
  {
    var x, y := a[|a| - 1], b[|b| - 1];
    assert x in Elements(a) && y in Elements(b);
    NoneAboveLast(a, y);
    NoneAboveLast(b, x);
    LessTotal(x, y);
  }

  lemma DropLast(a: seq<Key>)
    requires a != [] && Sorted(a)
    ensures Elements(a[..|a| - 1]) == Elements(a) - {a[|a| - 1]} && Sorted(a[..|a| - 1])
  {
    var n := |a| - 1;
    LessTotal(a[n], a[n]);
    assert a == a[..n] + [a[n]];
    forall k | k in a[..n] ensures k != a[n] {
      var i :| 0 <= i < n && a[i] == k;
      assert Less(a[i], a[n]);
    }
  }

  class ApiKeyAuthenticator {
    /** The published vector; CopyOnWrite says why a reader may search it without the mutex. */
    var keys: seq<Key>

    ghost predicate Valid()
      reads this
    {
      Sorted(keys)
    }

    constructor ()
      ensures Valid() && Elements(keys) == {}
    {
      keys := [];
    }

    /** load: sort, drop adjacent duplicates, replace. */
    method Load(newKeys: seq<Key>)
      requires Valid()
      modifies this
      ensures Valid() && Elements(keys) == Elements(newKeys)
      ensures keys == Apply(LoadKeys(newKeys), old(keys))
    {
      var sorted := Arranged(newKeys);
      ApplySorted(LoadKeys(newKeys), keys);
      keys := DropRepeats(sorted);
    }

    method AddKey(key: Key)
      requires Valid()
      modifies this
      ensures Valid() && Elements(keys) == Elements(old(keys)) + {key}
      ensures key in old(keys) ==> keys == old(keys)
      ensures keys == Apply(AddOne(key), old(keys))
    {
      ApplySorted(AddOne(key), keys);
      var n := LowerBound(keys, key);
      FoundAtBound(keys, key, n);
      if n < |keys| && keys[n] == key {
        return;
      }
      InsertAtBound(keys, key, n);
      SortedUnique(keys[..n] + [key] + keys[n..], Apply(AddOne(key), keys));
      keys := keys[..n] + [key] + keys[n..];
    }

    method RemoveKey(key: Key)
      requires Valid()
      modifies this
      ensures Valid() && Elements(keys) == Elements(old(keys)) - {key}
      ensures key !in old(keys) ==> keys == old(keys)
      ensures keys == Apply(RemoveOne(key), old(keys))
    {
      ApplySorted(RemoveOne(key), keys);
      if key !in keys {
        assert key !in Elements(keys);
        SortedUnique(keys, Without(keys, key));
      }
      keys := Erase(keys, key);
    }

    /** authenticate, for the value of an Authorization header */
    method Authenticate(header: seq<Byte>) returns (ok: bool)
      requires Valid()
      ensures ok <==> Grants(header)
    {
      var token := ExtractToken(header);
      CarriesIs(header, token);
      if token == [] {
        NothingCarried(header);
        return false;
      }
      ok := BinarySearch(keys, token);
      OnlyTokenCarried(header);
    }

    /** authenticate, for a set of headers: the first Authorization field decides. */
    method AuthenticateHeaders(headers: seq<Header>) returns (ok: bool)
      requires Valid()
      ensures ok <==> exists i: nat :: FirstAuthorization(headers, i) && Grants(headers[i].value)
    {
      hide Grants, IsAuthorization, NamesAuthorization;
      var i := 0;
      while i < |headers|
        invariant i <= |headers| && forall j :: 0 <= j < i ==> !NamesAuthorization(headers[j].name)
      {
        NamesAre(headers[i].name);
        if IsAuthorization(headers[i].name) {
          assert FirstAuthorization(headers, i);
          ok := Authenticate(headers[i].value);
          return;
        }
        i := i + 1;
      }
      ok := false;
    }

    /** The header carries a token that is one of the keys. */
    ghost predicate Grants(header: seq<Byte>)
      reads this
    {
      exists token :: Carries(header, token) && token in Elements(keys)
    }
  }

  ghost predicate FirstAuthorization(headers: seq<Header>, i: nat) {
    && i < |headers| && NamesAuthorization(headers[i].name)
    && forall j :: 0 <= j < i ==> !NamesAuthorization(headers[j].name)
  }

  lemma ElementsSnoc(keys: seq<Key>, key: Key)
    ensures Elements(keys + [key]) == Elements(keys) + {key}
  {
  }

  // ----- Sorting -----

  /** Ascending, duplicates allowed. */
  ghost predicate Ascending(keys: seq<Key>) {
    forall i, j :: 0 <= i < j < |keys| ==> !Less(keys[j], keys[i])
  }

  function Inserted(key: Key, sorted: seq<Key>): (r: seq<Key>)
    ensures multiset(r) == multiset(sorted) + multiset{key}
  {
    if sorted == [] || !Less(sorted[0], key) then [key] + sorted else
    assert sorted == [sorted[0]] + sorted[1..];
    [sorted[0]] + Inserted(key, sorted[1..])
  }

  /** std::sort: as far as keys are concerned its outcome is unique, so any sort will do. */
  function Arranged(keys: seq<Key>): (r: seq<Key>)
    ensures multiset(r) == multiset(keys)
  {
    if keys == [] then [] else
    assert keys == [keys[0]] + keys[1..];
    Inserted(keys[0], Arranged(keys[1..]))
  }

  lemma {:induction false} InsertedAscending(key: Key, sorted: seq<Key>)
    requires Ascending(sorted)
    ensures Ascending(Inserted(key, sorted))
  {
    var r := Inserted(key, sorted);
    if sorted == [] {
    } else if !Less(sorted[0], key) {
      forall j | 0 <= j < |sorted| ensures !Less(sorted[j], key) {
        LessTotal(sorted[0], sorted[0]);
        NotLessTransitive(key, sorted[0], sorted[j]);
      }
    } else {
      var rest := Inserted(key, sorted[1..]);
      InsertedAscending(key, sorted[1..]);
      LessTotal(sorted[0], key);
      forall k | k in rest ensures !Less(k, sorted[0]) {
        assert k in multiset(rest);
        assert k == key || k in multiset(sorted[1..]);
      }
      AscendingCons(sorted[0], rest);
    }
  }

  lemma AscendingCons(key: Key, rest: seq<Key>)
    requires Ascending(rest) && forall k :: k in rest ==> !Less(k, key)
    ensures Ascending([key] + rest)
  {
  }

  lemma {:induction false} ArrangedAscending(keys: seq<Key>)
    ensures Ascending(Arranged(keys)) && Elements(Arranged(keys)) == Elements(keys)
  {
    if keys != [] {
      ArrangedAscending(keys[1..]);
      InsertedAscending(keys[0], Arranged(keys[1..]));
    }
    SameElements(Arranged(keys), keys);
  }

  lemma SameElements(a: seq<Key>, b: seq<Key>)
    requires multiset(a) == multiset(b)
    ensures Elements(a) == Elements(b)
  {
    forall k ensures k in a <==> k in b {
      assert k in multiset(a) <==> k in multiset(b);
    }
  }

  lemma NotLessTransitive(a: Key, b: Key, c: Key)
    requires !Less(b, a) && !Less(c, b)
    ensures !Less(c, a)
  {
    LessTotal(a, b);
    LessTotal(b, c);
    LessTotal(c, c);
    if Less(a, b) && Less(b, c) {
      LessTransitive(a, b, c);
    }
    LessTotal(a, c);
  }

  lemma SortedSnoc(keys: seq<Key>, key: Key)
    requires Sorted(keys) && (keys != [] ==> Less(keys[|keys| - 1], key))
    ensures Sorted(keys + [key])
  {
    forall i | 0 <= i < |keys| ensures Less(keys[i], key) {
      if i < |keys| - 1 {
        LessTransitive(keys[i], keys[|keys| - 1], key);
      }
    }
  }

  lemma InsertAtBound(keys: seq<Key>, key: Key, n: nat)
    requires Sorted(keys) && IsBound(keys, key, n) && (n < |keys| ==> keys[n] != key)
    ensures var after := keys[..n] + [key] + keys[n..];
            Sorted(after) && Elements(after) == Elements(keys) + {key}
  {
    assert keys == keys[..n] + keys[n..];
    if n < |keys| {
      LessTotal(keys[n], key);
    }
    forall i | n < i < |keys| ensures Less(key, keys[i]) {
      LessTransitive(key, keys[n], keys[i]);
    }
    assert forall i :: 0 <= i < |keys[n..]| ==> Less(key, keys[n..][i]);
  }

  // ----- The three changes -----

  /** What std::unique and erase leave: a key equal to the one before it is dropped. */
  function Unrepeated(keys: seq<Key>): seq<Key> {
    if keys == [] then [] else
    var n := |keys| - 1;
    Unrepeated(keys[..n]) + (if n > 0 && keys[n - 1] == keys[n] then [] else [keys[n]])
  }

  method DropRepeats(keys: seq<Key>) returns (r: seq<Key>)
    ensures r == Unrepeated(keys)
  {
    r := [];
    var i := 0;
    while i < |keys|
      invariant i <= |keys| && r == Unrepeated(keys[..i])
    {
      assert keys[..i + 1][..i] == keys[..i];
      if i == 0 || keys[i - 1] != keys[i] {
        r := r + [keys[i]];
      }
      i := i + 1;
    }
    assert keys[..i] == keys;
  }

  /** Nothing but repetitions is dropped from an ascending vector, and all of those. */
  lemma {:induction false} UnrepeatedSorted(keys: seq<Key>)
    requires Ascending(keys)
    ensures Sorted(Unrepeated(keys)) && Elements(Unrepeated(keys)) == Elements(keys)
    ensures keys != [] ==> Unrepeated(keys) != [] && Unrepeated(keys)[|Unrepeated(keys)| - 1] == keys[|keys| - 1]
  {
    if keys != [] {
      var n := |keys| - 1;
      var before := Unrepeated(keys[..n]);
      UnrepeatedSorted(keys[..n]);
      assert keys == keys[..n] + [keys[n]];
      ElementsSnoc(keys[..n], keys[n]);
      ElementsSnoc(before, keys[n]);
      if n > 0 {
        LessTotal(keys[n - 1], keys[n]);
        assert keys[n - 1] in Elements(keys[..n]) by { assert keys[n - 1] == keys[..n][n - 1]; }
      }
      if n == 0 || keys[n - 1] != keys[n] {
        SortedSnoc(before, keys[n]);
      }
    }
  }

  datatype Change = AddOne(key: Key) | RemoveOne(key: Key) | LoadKeys(keys: seq<Key>)

  /** What a change makes of the vector. */
  function Apply(c: Change, keys: seq<Key>): seq<Key> {
    match c
    case AddOne(key) => if key in keys then keys else Inserted(key, keys)
    case RemoveOne(key) => Without(keys, key)
    case LoadKeys(ks) => Unrepeated(Arranged(ks))
  }

  /** What it makes of the set of keys. */
  ghost function Effect(c: Change, known: set<Key>): set<Key> {
    match c
    case AddOne(key) => known + {key}
    case RemoveOne(key) => known - {key}
    case LoadKeys(ks) => Elements(ks)
  }

  lemma {:induction false} WithoutSorted(keys: seq<Key>, key: Key)
    requires Sorted(keys)
    ensures Sorted(Without(keys, key))
  {
    if keys != [] {
      var n := |keys| - 1;
      DropLast(keys);
      WithoutSorted(keys[..n], key);
      forall k | k in Without(keys[..n], key) ensures Less(k, keys[n]) {
        assert k in keys[..n];
      }
    }
  }

  lemma {:induction false} InsertedSorted(key: Key, sorted: seq<Key>)
    requires Sorted(sorted) && key !in sorted
    ensures Sorted(Inserted(key, sorted)) && Elements(Inserted(key, sorted)) == Elements(sorted) + {key}
  {
    SameElements(Inserted(key, sorted), sorted + [key]);
    ElementsSnoc(sorted, key);
    if sorted == [] {
    } else if !Less(sorted[0], key) {
      forall j | 0 <= j < |sorted| ensures Less(key, sorted[j]) {
        LessTotal(sorted[0], key);
        if j > 0 {
          LessTransitive(key, sorted[0], sorted[j]);
        }
      }
    } else {
      var rest := Inserted(key, sorted[1..]);
      InsertedSorted(key, sorted[1..]);
      forall k | k in rest ensures Less(sorted[0], k) {
        assert k in Elements(rest);
        assert k == key || k in sorted[1..];
      }
    }
  }

  /** The vector stays strictly sorted and holds what the change makes of the set. */
  lemma ApplySorted(c: Change, keys: seq<Key>)
    requires Sorted(keys)
    ensures Sorted(Apply(c, keys)) && Elements(Apply(c, keys)) == Effect(c, Elements(keys))
  {
    match c
    case AddOne(key) =>
      if key !in keys {
        InsertedSorted(key, keys);
      }
    case RemoveOne(key) =>
      WithoutSorted(keys, key);
      forall k | k in keys && k != key ensures k in Without(keys, key) {
        WithoutKeeps(keys, key, k);
      }
    case LoadKeys(ks) =>
      ArrangedAscending(ks);
      UnrepeatedSorted(Arranged(ks));
  }

  // ----- Bearer tokens -----

  // "bearer"
  const SCHEME: seq<Byte> := [98, 101, 97, 114, 101, 114]
  // "authorization"
  const AUTHORIZATION: seq<Byte> := [97, 117, 116, 104, 111, 114, 105, 122, 97, 116, 105, 111, 110]

  predicate IsAuthorization(name: seq<Byte>) {
    EqualsLower(name, AUTHORIZATION)
  }

  ghost predicate NamesBearer(s: seq<Byte>) {
    |s| == 6 && forall i | 0 <= i < 6 :: s[i] == Ascii("bearer")[i] || s[i] == Ascii("BEARER")[i]
  }

  ghost predicate NamesAuthorization(s: seq<Byte>) {
    && |s| == 13
    && forall i | 0 <= i < 13 :: s[i] == Ascii("authorization")[i] || s[i] == Ascii("AUTHORIZATION")[i]
  }

  /** The scheme and the field's name, each letter in either case. */
  lemma NamesAre(s: seq<Byte>)
    ensures EqualsLower(s, SCHEME) <==> NamesBearer(s)
    ensures IsAuthorization(s) <==> NamesAuthorization(s)
  {
    assert Ascii("bearer") == SCHEME && Ascii("BEARER") == [66, 69, 65, 82, 69, 82];
    assert Ascii("authorization") == AUTHORIZATION;
    assert Ascii("AUTHORIZATION") == [65, 85, 84, 72, 79, 82, 73, 90, 65, 84, 73, 79, 78];
    EitherCase(s, SCHEME, Ascii("BEARER"));
    EitherCase(s, AUTHORIZATION, Ascii("AUTHORIZATION"));
  }

  function TrimLeft(s: seq<Byte>): (r: seq<Byte>)
    ensures |r| <= |s| && r == s[|s| - |r|..] && (r != [] ==> !Blank(r[0]))
    ensures forall i | 0 <= i < |s| - |r| :: Blank(s[i])
  {
    if s != [] && Blank(s[0]) then TrimLeft(s[1..]) else s
  }

  function ExtractToken(header: seq<Byte>): seq<Byte> {
    var h := TrimLeft(header);
    if |h| < |SCHEME| || !EqualsLower(h[..|SCHEME|], SCHEME) then [] else
    TrimRight(TrimLeft(h[|SCHEME|..]))
  }

  ghost predicate Blanks(s: seq<Byte>) {
    forall i | 0 <= i < |s| :: s[i] == 32 || s[i] == 9
  }

  ghost predicate Trimmed(t: seq<Byte>) {
    t != [] && t[0] != 32 && t[0] != 9 && t[|t| - 1] != 32 && t[|t| - 1] != 9
  }

  /** The accepted form: blanks, the scheme in any case, blanks, the token, blanks. */
  ghost predicate HasForm(header: seq<Byte>, before: seq<Byte>, scheme: seq<Byte>, gap: seq<Byte>, token: seq<Byte>,
                          after: seq<Byte>)
  {
    && header == before + (scheme + (gap + (token + after)))
    && Blanks(before) && NamesBearer(scheme) && Blanks(gap) && Trimmed(token) && Blanks(after)
  }

  ghost predicate Carries(header: seq<Byte>, token: seq<Byte>) {
    exists before, scheme, gap, after :: HasForm(header, before, scheme, gap, token, after)
  }

  /** A header carries exactly the token that is extracted, if one is. */
  lemma CarriesIs(header: seq<Byte>, token: seq<Byte>)
    ensures Carries(header, token) <==> token != [] && ExtractToken(header) == token
  {
    hide ExtractToken, Blanks, NamesBearer;
    if Carries(header, token) {
      var before, scheme, gap, after :| HasForm(header, before, scheme, gap, token, after);
      NamesAre(scheme);
      TokenExtracted(before, scheme, gap, token, after);
    }
    if token != [] && ExtractToken(header) == token {
      var before, scheme, gap, after := OnlyThenExtracted(header);
      NamesAre(scheme);
      assert HasForm(header, before, scheme, gap, token, after);
    }
  }

  lemma NothingCarried(header: seq<Byte>)
    requires ExtractToken(header) == []
    ensures forall token :: !Carries(header, token)
  {
    forall token ensures !Carries(header, token) {
      CarriesIs(header, token);
    }
  }

  lemma OnlyTokenCarried(header: seq<Byte>)
    ensures forall token :: Carries(header, token) ==> token == ExtractToken(header)
  {
    forall token ensures Carries(header, token) ==> token == ExtractToken(header) {
      CarriesIs(header, token);
    }
  }

  lemma {:induction false} TrimLeftExact(blanks: seq<Byte>, t: seq<Byte>)
    requires Blanks(blanks) && (t != [] ==> !Blank(t[0]))
    ensures TrimLeft(blanks + t) == t
  {
    if blanks == [] {
      assert blanks + t == t;
    } else {
      assert (blanks + t)[1..] == blanks[1..] + t;
      TrimLeftExact(blanks[1..], t);
    }
  }

  lemma {:induction false} TrimRightExact(t: seq<Byte>, blanks: seq<Byte>)
    requires Blanks(blanks) && (t != [] ==> !Blank(t[|t| - 1]))
    ensures TrimRight(t + blanks) == t
  {
    if blanks == [] {
      assert t + blanks == t;
    } else {
      var n := |blanks| - 1;
      assert (t + blanks)[..|t| + n] == t + blanks[..n];
      TrimRightExact(t, blanks[..n]);
    }
  }

  /** A header in the accepted form yields its token; no blank is needed between scheme and token. */
  lemma TokenExtracted(before: seq<Byte>, scheme: seq<Byte>, gap: seq<Byte>, token: seq<Byte>, after: seq<Byte>)
    requires Blanks(before) && Blanks(gap) && Blanks(after) && EqualsLower(scheme, SCHEME) && Trimmed(token)
    ensures ExtractToken(before + (scheme + (gap + (token + after)))) == token
  {
    assert Lower(scheme[0]) == SCHEME[0];
    var h := scheme + (gap + (token + after));
    TrimLeftExact(before, h);
    assert h[..|SCHEME|] == scheme && h[|SCHEME|..] == gap + (token + after);
    TrimLeftExact(gap, token + after);
    TrimRightExact(token, after);
  }

  lemma SplitLeft(s: seq<Byte>) returns (blanks: seq<Byte>)
    ensures Blanks(blanks) && s == blanks + TrimLeft(s) && (TrimLeft(s) != [] ==> !Blank(TrimLeft(s)[0]))
  {
    blanks := s[..|s| - |TrimLeft(s)|];
  }

  lemma SplitRight(s: seq<Byte>) returns (blanks: seq<Byte>)
    requires s != [] ==> !Blank(s[0])
    ensures Blanks(blanks) && s == TrimRight(s) + blanks && (TrimRight(s) != [] ==> Trimmed(TrimRight(s)))
  {
    blanks := s[|TrimRight(s)|..];
  }

  /** And only headers in that form yield one. */
  lemma OnlyThenExtracted(header: seq<Byte>)
      returns (before: seq<Byte>, scheme: seq<Byte>, gap: seq<Byte>, after: seq<Byte>)
    requires ExtractToken(header) != []
    ensures Blanks(before) && Blanks(gap) && Blanks(after)
    ensures EqualsLower(scheme, SCHEME) && Trimmed(ExtractToken(header))
    ensures header == before + (scheme + (gap + (ExtractToken(header) + after)))
  {
    hide TrimLeft, TrimRight, Blanks, Trimmed, EqualsLower, Blank;
    var h := TrimLeft(header);
    before := SplitLeft(header);
    scheme := h[..|SCHEME|];
    assert h == scheme + h[|SCHEME|..];
    gap := SplitLeft(h[|SCHEME|..]);
    after := SplitRight(TrimLeft(h[|SCHEME|..]));
  }

  // ----- Under concurrent readers and writers -----

  /** The keys known after a history of changes, starting from none. */
  ghost function Known(history: seq<Change>): set<Key> {
    if history == [] then {} else Effect(history[|history| - 1], Known(history[..|history| - 1]))
  }

  /** The vector after a history of changes. */
  function Vector(history: seq<Change>): seq<Key> {
    CopyOnWrite.Version(Apply, [], history)
  }

  lemma {:induction false} VectorHoldsKnown(history: seq<Change>)
    ensures Sorted(Vector(history)) && Elements(Vector(history)) == Known(history)
  {
    if history != [] {
      var n := |history| - 1;
      VectorHoldsKnown(history[..n]);
      ApplySorted(history[n], Vector(history[..n]));
    }
  }

  /**
   * In every interleaving of readers with writers that add, remove and load keys: from when a reader takes its pointer
   * for as long as it keeps it, a bisection of what it sees answers membership in the key set as it was at that moment.
   */
  lemma SnapshotAuthenticates(states: seq<CopyOnWrite.Store<seq<Key>, Change>>, events: seq<CopyOnWrite.Event<Change>>,
                              r: nat, i: nat, j: nat, token: Key, n: nat)
    requires CopyOnWrite.Run(Apply, [], states, events) && 0 < i <= j < |states|
    requires events[i - 1] == CopyOnWrite.Acquire(r) && states[i - 1].writer.Idle? && r !in states[i - 1].readers
    requires CopyOnWrite.Holds(states, r, i, j)
    ensures CopyOnWrite.SameView(Apply, [], states[i], states[j], r)
    ensures var seen := states[j].heap[states[j].readers[r]];
            && Sorted(seen) && Elements(seen) == Known(states[i].history)
            && (IsBound(seen, token, n) ==> (n < |seen| && seen[n] == token <==> token in Known(states[i].history)))
  {
    CopyOnWrite.SnapshotNeverChanges(Apply, [], states, events, r, i, j);
    TakesLatest(states, events, r, i);
    hide CopyOnWrite.Run, CopyOnWrite.Holds;
    var seen := states[j].heap[states[j].readers[r]];
    VectorHoldsKnown(states[i].history);
    if IsBound(seen, token, n) {
      FoundAtBound(seen, token, n);
    }
  }

  lemma TakesLatest(states: seq<CopyOnWrite.Store<seq<Key>, Change>>, events: seq<CopyOnWrite.Event<Change>>,
                    r: nat, i: nat)
    requires CopyOnWrite.Run(Apply, [], states, events) && 0 < i < |states|
    requires events[i - 1] == CopyOnWrite.Acquire(r) && states[i - 1].writer.Idle? && r !in states[i - 1].readers
    ensures var s := states[i]; r in s.since && s.since[r] == |s.history| && s.history[..s.since[r]] == s.history
  {
  }
}
