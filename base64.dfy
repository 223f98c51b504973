/**
 * Base64 as defined in section 4 of RFC 4648: the 64-character alphabet,
 * four characters per three bytes, and '=' padding in the final quantum.
 * Decode is the strict decoder that `decodeBase64Image` relies on;
 * Encode is its inverse, used to state the round trip.
 */
module Base64 {
  import opened Wrappers

  type byte = x: int | 0 <= x < 256
  type sextet = x: int | 0 <= x < 64

  predicate IsAlphabetChar(c: char) {
    ('A' <= c <= 'Z') || ('a' <= c <= 'z') || ('0' <= c <= '9') || c == '+' || c == '/'
  }

  /** Table 1 of RFC 4648: the character encoding a 6-bit value. */
  function CharOf(v: sextet): (c: char)
    ensures IsAlphabetChar(c)
  {
    if v < 26 then ('A' as int + v) as char
    else if v < 52 then ('a' as int + (v - 26)) as char
    else if v < 62 then ('0' as int + (v - 52)) as char
    else if v == 62 then '+'
    else '/'
  }

  /** Table 1 of RFC 4648 read backwards. */
  function ValueOf(c: char): (v: sextet)
    requires IsAlphabetChar(c)
    ensures CharOf(v) == c
  {
    if 'A' <= c <= 'Z' then c as int - 'A' as int
    else if 'a' <= c <= 'z' then c as int - 'a' as int + 26
    else if '0' <= c <= '9' then c as int - '0' as int + 52
    else if c == '+' then 62
    else 63
  }

  lemma ValueOfCharOf(v: sextet)
    ensures ValueOf(CharOf(v)) == v
  {
  }

  // ---------------------------------------------------------------------------
  // Quanta

  /** Four alphabet characters carry three bytes. */
  function DecodeQuantum(c0: sextet, c1: sextet, c2: sextet, c3: sextet): seq<byte> {
    [c0 * 4 + c1 / 16, (c1 % 16) * 16 + c2 / 4, (c2 % 4) * 64 + c3]
  }

  predicate AllAlphabet(q: string) {
    forall i :: 0 <= i < |q| ==> IsAlphabetChar(q[i])
  }

  /** A quantum that is not the last one: four alphabet characters, no padding. */
  function DecodeInner(q: string): Option<seq<byte>>
    requires |q| == 4
  {
    if AllAlphabet(q) then
      Some(DecodeQuantum(ValueOf(q[0]), ValueOf(q[1]), ValueOf(q[2]), ValueOf(q[3])))
    else None
  }

  /**
   * The final quantum: unpadded, "xxx=" (two bytes) or "xx==" (one byte).
   * The pad bits of the last character are not required to be zero.
   */
  function DecodeFinal(q: string): Option<seq<byte>>
    requires |q| == 4
  {
    if AllAlphabet(q) then DecodeInner(q)
    else if AllAlphabet(q[..3]) && q[3] == '=' then
      Some(DecodeQuantum(ValueOf(q[0]), ValueOf(q[1]), ValueOf(q[2]), 0)[..2])
    else if AllAlphabet(q[..2]) && q[2] == '=' && q[3] == '=' then
      Some(DecodeQuantum(ValueOf(q[0]), ValueOf(q[1]), 0, 0)[..1])
    else None
  }

  /** Strict decoding: None unless `s` is a whole number of well-formed quanta. */
  function Decode(s: string): (r: Option<seq<byte>>)
    ensures r.Some? ==> |s| % 4 == 0 && 4 * |r.value| <= 3 * |s|
    decreases |s|
  {
    if |s| == 0 then Some([])
    else if |s| < 4 then None
    else if |s| == 4 then DecodeFinal(s)
    else match DecodeInner(s[..4])
      case None => None
      case Some(head) =>
        match Decode(s[4..])
        case None => None
        case Some(tail) => Some(head + tail)
  }

  // ---------------------------------------------------------------------------
  // Encoding

  function EncodeQuantum(b0: byte, b1: byte, b2: byte): string {
    [CharOf(b0 / 4), CharOf((b0 % 4) * 16 + b1 / 16), CharOf((b1 % 16) * 4 + b2 / 64), CharOf(b2 % 64)]
  }

  function Encode(b: seq<byte>): (s: string)
    ensures |s| == (|b| + 2) / 3 * 4
    decreases |b|
  {
    if |b| == 0 then []
    else if |b| == 1 then [CharOf(b[0] / 4), CharOf((b[0] % 4) * 16), '=', '=']
    else if |b| == 2 then [CharOf(b[0] / 4), CharOf((b[0] % 4) * 16 + b[1] / 16), CharOf((b[1] % 16) * 4), '=']
    else EncodeQuantum(b[0], b[1], b[2]) + Encode(b[3..])
  }

  lemma SplitHigh(a: int, b: int, m: int)
    requires m == 4 || m == 16 || m == 64
    requires 0 <= b < m
    ensures (a * m + b) / m == a && (a * m + b) % m == b
  {
  }

  /** The three bytes of one quantum survive encoding and decoding. */
  lemma QuantumRoundTrip(b0: byte, b1: byte, b2: byte)
    ensures AllAlphabet(EncodeQuantum(b0, b1, b2))
    ensures DecodeInner(EncodeQuantum(b0, b1, b2)) == Some([b0, b1, b2])
  {
    var c0, c1, c2, c3 := b0 / 4, (b0 % 4) * 16 + b1 / 16, (b1 % 16) * 4 + b2 / 64, b2 % 64;
    ValueOfCharOf(c0);
    ValueOfCharOf(c1);
    ValueOfCharOf(c2);
    ValueOfCharOf(c3);
    SplitHigh(b0 % 4, b1 / 16, 16);
    SplitHigh(b1 % 16, b2 / 64, 4);
    assert c0 * 4 + c1 / 16 == b0;
    assert (c1 % 16) * 16 + c2 / 4 == b1;
    assert (c2 % 4) * 64 + c3 == b2;
    var q := EncodeQuantum(b0, b1, b2);
    assert DecodeQuantum(ValueOf(q[0]), ValueOf(q[1]), ValueOf(q[2]), ValueOf(q[3])) == [b0, b1, b2];
  }

  /** The final quantum "xx==" gives back its one byte. */
  lemma OneByteRoundTrip(b0: byte)
    ensures Decode(Encode([b0])) == Some([b0])
  {
    var s := Encode([b0]);
    ValueOfCharOf(b0 / 4);
    ValueOfCharOf((b0 % 4) * 16);
    SplitHigh(b0 % 4, 0, 16);
    assert !IsAlphabetChar(s[3]) && !IsAlphabetChar(s[..3][2]);
    assert AllAlphabet(s[..2]);
    var c0: int, c1: int := ValueOf(s[0]), ValueOf(s[1]);
    assert c0 * 4 + c1 / 16 == b0;
    var d := DecodeQuantum(c0, c1, 0, 0);
    assert DecodeFinal(s) == Some(d[..1]);
    assert d[..1] == [b0];
  }

  /** The final quantum "xxx=" gives back its two bytes. */
  lemma TwoBytesRoundTrip(b0: byte, b1: byte)
    ensures Decode(Encode([b0, b1])) == Some([b0, b1])
  {
    var s := Encode([b0, b1]);
    ValueOfCharOf(b0 / 4);
    ValueOfCharOf((b0 % 4) * 16 + b1 / 16);
    ValueOfCharOf((b1 % 16) * 4);
    SplitHigh(b0 % 4, b1 / 16, 16);
    SplitHigh(b1 % 16, 0, 4);
    assert !IsAlphabetChar(s[3]);
    assert AllAlphabet(s[..3]);
    var c0: int, c1: int, c2: int := ValueOf(s[0]), ValueOf(s[1]), ValueOf(s[2]);
    assert c0 * 4 + c1 / 16 == b0;
    assert (c1 % 16) * 16 + c2 / 4 == b1;
    var d := DecodeQuantum(c0, c1, c2, 0);
    assert DecodeFinal(s) == Some(d[..2]);
    assert d[..2] == [b0, b1];
  }

  /** Decoding a non-final quantum followed by more input. */
  lemma DecodeAppend(q: string, rest: string, head: seq<byte>, tail: seq<byte>)
    requires |q| == 4 && |rest| >= 4
    requires DecodeInner(q) == Some(head) && Decode(rest) == Some(tail)
    ensures Decode(q + rest) == Some(head + tail)
  {
    var s := q + rest;
    assert s[..4] == q && s[4..] == rest;
  }

  lemma SplitFirstThree(b: seq<byte>)
    requires |b| >= 3
    ensures b == [b[0], b[1], b[2]] + b[3..]
  {
  }

  /** Three bytes make one unpadded final quantum. */
  lemma ThreeBytesRoundTrip(b0: byte, b1: byte, b2: byte)
    ensures Decode(Encode([b0, b1, b2])) == Some([b0, b1, b2])
  {
    var b := [b0, b1, b2];
    assert b[3..] == [];
    assert Encode(b) == EncodeQuantum(b0, b1, b2) + [];
    QuantumRoundTrip(b0, b1, b2);
  }

  /** A leading full quantum is decoded in front of whatever the rest decodes to. */
  lemma LeadingQuantumRoundTrip(b: seq<byte>)
    requires |b| > 3
    requires Decode(Encode(b[3..])) == Some(b[3..])
    ensures Decode(Encode(b)) == Some(b)
  {
    var q := EncodeQuantum(b[0], b[1], b[2]);
    var rest := Encode(b[3..]);
    QuantumRoundTrip(b[0], b[1], b[2]);
    assert Encode(b) == q + rest;
    DecodeAppend(q, rest, [b[0], b[1], b[2]], b[3..]);
    SplitFirstThree(b);
  }

  /** Decoding undoes encoding, for every byte string. */
  lemma {:induction false} DecodeEncode(b: seq<byte>)
    ensures Decode(Encode(b)) == Some(b)
    decreases |b|
  {
    if |b| == 1 {
      OneByteRoundTrip(b[0]);
      assert b == [b[0]];
    } else if |b| == 2 {
      TwoBytesRoundTrip(b[0], b[1]);
      assert b == [b[0], b[1]];
    } else if |b| == 3 {
      ThreeBytesRoundTrip(b[0], b[1], b[2]);
      assert b == [b[0], b[1], b[2]];
    } else if |b| > 3 {
      DecodeEncode(b[3..]);
      LeadingQuantumRoundTrip(b);
    }
  }
}
