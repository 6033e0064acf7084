/** Octets and the few stream helpers every component shares. */
module Bytes {

  /** An octet. Where the C sources compare `char` values, signed and unsigned readings agree. */
  type Byte = b: int | 0 <= b < 256

  /** The octets of a text in ASCII. */
  function Ascii(text: string): (s: seq<Byte>)
    ensures |s| == |text|
  {
    seq(|text|, i requires 0 <= i < |text| => var c := text[i] as int; if c < 128 then c else 0)
  }

  const HT: Byte := 9
  const LF: Byte := 10
  const CR: Byte := 13
  const SP: Byte := 32
  const CRLF: seq<Byte> := [CR, LF]

  /** The octets the components name. */
  lemma AsciiNames()
    ensures Ascii("\t") == [HT] && Ascii(" ") == [SP] && Ascii("\r\n") == CRLF == [CR, LF] == [13, 10]
  {
  }

  /** ASCII lower case. */
  function Lower(b: Byte): Byte {
    if 65 <= b <= 90 then b + 32 else b
  }

  /** The same text as the lower-case `lower`, whatever the case of its letters. */
  predicate EqualsLower(s: seq<Byte>, lower: seq<Byte>) {
    |s| == |lower| && forall i | 0 <= i < |s| :: Lower(s[i]) == lower[i]
  }

  /** Each letter may be of either case. */
  lemma EitherCase(s: seq<Byte>, lower: seq<Byte>, upper: seq<Byte>)
    requires |lower| == |upper|
    requires forall i | 0 <= i < |lower| ::
               if 97 <= lower[i] <= 122 then upper[i] == lower[i] - 32
               else upper[i] == lower[i] && !(65 <= lower[i] <= 90)
    ensures EqualsLower(s, lower) <==> |s| == |lower| && forall i | 0 <= i < |s| :: s[i] == lower[i] || s[i] == upper[i]
  {
    if |s| == |lower| {
      forall i | 0 <= i < |s| ensures Lower(s[i]) == lower[i] <==> s[i] == lower[i] || s[i] == upper[i] {
      }
    }
  }

  /** The moduli of the sources' 32-bit and 64-bit unsigned integers. */
  const U32: nat := 0x1_0000_0000
  const U64: nat := 0x1_0000_0000_0000_0000

  /** The value an unsigned 64-bit variable holds after being assigned `n`. */
  function Wrap64(n: int): (r: nat)
    ensures r < U64
    ensures 0 <= n < U64 ==> r == n
  {
    n % 0x1_0000_0000_0000_0000
  }

  /** A segmented stream put back together. */
  function Flatten<T>(pieces: seq<seq<T>>): seq<T> {
    if pieces == [] then [] else pieces[0] + Flatten(pieces[1..])
  }

  /** Cutting a stream after its first `n` pieces. */
  lemma {:induction false} FlattenSplit<T>(pieces: seq<seq<T>>, n: nat)
    requires n <= |pieces|
    ensures Flatten(pieces) == Flatten(pieces[..n]) + Flatten(pieces[n..])
  {
    if n == 0 {
      assert pieces[0..] == pieces;
    } else {
      FlattenSplit(pieces[1..], n - 1);
      assert pieces[..n][1..] == pieces[1..][..n - 1];
      assert pieces[1..][n - 1..] == pieces[n..];
    }
  }

  lemma {:induction false} FlattenConcat<T>(a: seq<seq<T>>, b: seq<seq<T>>)
    ensures Flatten(a + b) == Flatten(a) + Flatten(b)
  {
    FlattenSplit(a + b, |a|);
    assert (a + b)[..|a|] == a && (a + b)[|a|..] == b;
  }
}
