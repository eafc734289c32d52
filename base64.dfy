/**
 * Base 64 encoding with the URL- and filename-safe alphabet and `=` padding,
 * as defined in section 5 of RFC 4648 (Go's `base64.URLEncoding`). `Decode`
 * is not used by the repository; it is the inverse that shows `Encode` loses
 * nothing, so distinct random inputs give distinct session tokens.
 */
module Base64 {
  import opened Wrappers

  type byte = x: int | 0 <= x < 256
  type sextet = x: int | 0 <= x < 64

  const Pad: char := '='

  /** Three bytes read as four 6-bit values, most significant first. */
  datatype Sextets = Sextets(v0: sextet, v1: sextet, v2: sextet, v3: sextet)

  function Split(b0: byte, b1: byte, b2: byte): Sextets {
    Sextets(b0 / 4, b0 % 4 * 16 + b1 / 16, b1 % 16 * 4 + b2 / 64, b2 % 64)
  }

  /** The three bytes four 6-bit values carry. */
  function Join(q: Sextets): seq<byte> {
    [q.v0 * 4 + q.v1 / 16, q.v1 % 16 * 16 + q.v2 / 4, q.v2 % 4 * 64 + q.v3]
  }

  /** The character for the 6-bit value `i`: `A-Z`, `a-z`, `0-9`, then `-` and `_`. */
  function Symbol(i: sextet): char {
    if i < 26 then ('A' as int + i) as char
    else if i < 52 then ('a' as int + (i - 26)) as char
    else if i < 62 then ('0' as int + (i - 52)) as char
    else if i == 62 then '-'
    else '_'
  }

  predicate IsSymbol(c: char) {
    'A' <= c <= 'Z' || 'a' <= c <= 'z' || '0' <= c <= '9' || c == '-' || c == '_'
  }

  function SymbolValue(c: char): sextet
    requires IsSymbol(c)
  {
    if 'A' <= c <= 'Z' then c as int - 'A' as int
    else if 'a' <= c <= 'z' then c as int - 'a' as int + 26
    else if '0' <= c <= '9' then c as int - '0' as int + 52
    else if c == '-' then 62
    else 63
  }

  /**
   * `EncodeToString`: each group of three bytes becomes four symbols; a final
   * one or two bytes are padded with zero bits, and the group is completed
   * with `==` or `=`.
   */
  function Encode(b: seq<byte>): string
    decreases |b|
  {
    if |b| == 0 then ""
    else if |b| == 1 then
      var q := Split(b[0], 0, 0);
      [Symbol(q.v0), Symbol(q.v1), Pad, Pad]
    else if |b| == 2 then
      var q := Split(b[0], b[1], 0);
      [Symbol(q.v0), Symbol(q.v1), Symbol(q.v2), Pad]
    else
      var q := Split(b[0], b[1], b[2]);
      [Symbol(q.v0), Symbol(q.v1), Symbol(q.v2), Symbol(q.v3)] + Encode(b[3..])
  }

  /** Four characters back to bytes; padding is accepted only in the final group. */
  function DecodeGroup(c0: char, c1: char, c2: char, c3: char, final: bool): Option<seq<byte>> {
    if !IsSymbol(c0) || !IsSymbol(c1) then None
    else if final && c2 == Pad && c3 == Pad then
      Some(Join(Sextets(SymbolValue(c0), SymbolValue(c1), 0, 0))[..1])
    else if !IsSymbol(c2) then None
    else if final && c3 == Pad then
      Some(Join(Sextets(SymbolValue(c0), SymbolValue(c1), SymbolValue(c2), 0))[..2])
    else if !IsSymbol(c3) then None
    else Some(Join(Sextets(SymbolValue(c0), SymbolValue(c1), SymbolValue(c2), SymbolValue(c3))))
  }

  function Decode(s: string): Option<seq<byte>>
    decreases |s|
  {
    if |s| == 0 then Some([])
    else if |s| < 4 then None
    else
      match DecodeGroup(s[0], s[1], s[2], s[3], |s| == 4)
      case None => None
      case Some(g) =>
        match Decode(s[4..])
        case None => None
        case Some(rest) => Some(g + rest)
  }

  /** Every started group of three bytes becomes four characters. */
  lemma {:induction false} EncodeLength(b: seq<byte>)
    ensures |Encode(b)| == 4 * ((|b| + 2) / 3)
    decreases |b|
  {
    var n := |b|;
    if n == 0 {
      assert (n + 2) / 3 == 0;
    } else if n <= 2 {
      assert |Encode(b)| == 4;
      assert (n + 2) / 3 == 1;
    } else {
      EncodeLength(b[3..]);
      assert |Encode(b)| == 4 + |Encode(b[3..])|;
      assert (n + 2) / 3 == (n - 3 + 2) / 3 + 1;
    }
  }

  lemma SymbolInverse(i: sextet)
    ensures IsSymbol(Symbol(i)) && SymbolValue(Symbol(i)) == i
  {
  }

  /** The output uses only the URL-safe alphabet, with `=` only in the last two positions. */
  lemma {:induction false} EncodeAlphabet(b: seq<byte>)
    ensures forall i :: 0 <= i < |Encode(b)| ==>
              IsSymbol(Encode(b)[i]) || (Encode(b)[i] == Pad && i >= |Encode(b)| - 2)
    decreases |b|
  {
    if |b| >= 3 {
      EncodeAlphabet(b[3..]);
      EncodeLength(b[3..]);
      var q := Split(b[0], b[1], b[2]);
      var g, rest := [Symbol(q.v0), Symbol(q.v1), Symbol(q.v2), Symbol(q.v3)], Encode(b[3..]);
      SymbolInverse(q.v0);
      SymbolInverse(q.v1);
      SymbolInverse(q.v2);
      SymbolInverse(q.v3);
      assert Encode(b) == g + rest;
      forall i | 0 <= i < |g + rest|
        ensures IsSymbol((g + rest)[i]) || ((g + rest)[i] == Pad && i >= |g + rest| - 2)
      {
        if i >= 4 {
          assert (g + rest)[i] == rest[i - 4];
        }
      }
    } else if |b| > 0 {
      var q := Split(b[0], if |b| == 2 then b[1] else 0, 0);
      SymbolInverse(q.v0);
      SymbolInverse(q.v1);
      SymbolInverse(q.v2);
    }
  }

  /** Splitting three bytes into 6-bit values and joining them again is the identity. */
  lemma JoinSplit(b0: byte, b1: byte, b2: byte)
    ensures Join(Split(b0, b1, b2)) == [b0, b1, b2]
  {
    var q := Split(b0, b1, b2);
    assert q.v0 * 4 + q.v1 / 16 == b0;
    assert q.v1 % 16 == b1 / 16;
    assert q.v1 % 16 * 16 + q.v2 / 4 == b1;
    assert q.v2 % 4 == b2 / 64;
  }

  /** A group of four symbols decodes to the bytes its values carry. */
  lemma DecodeSymbols(q: Sextets, final: bool)
    ensures DecodeGroup(Symbol(q.v0), Symbol(q.v1), Symbol(q.v2), Symbol(q.v3), final) == Some(Join(q))
  {
    SymbolInverse(q.v0);
    SymbolInverse(q.v1);
    SymbolInverse(q.v2);
    SymbolInverse(q.v3);
  }

  /** A final group with one or two `=` decodes to the first one or two bytes its values carry. */
  lemma DecodePadded(q: Sextets, twoBytes: bool)
    requires q.v3 == 0 && (!twoBytes ==> q.v2 == 0)
    ensures !twoBytes ==> DecodeGroup(Symbol(q.v0), Symbol(q.v1), Pad, Pad, true) == Some(Join(q)[..1])
    ensures twoBytes ==> DecodeGroup(Symbol(q.v0), Symbol(q.v1), Symbol(q.v2), Pad, true) == Some(Join(q)[..2])
  {
    SymbolInverse(q.v0);
    SymbolInverse(q.v1);
    SymbolInverse(q.v2);
  }

  /** The bytes a padded final group carries are the bytes it was made from. */
  lemma TailBytes(b: seq<byte>)
    requires 1 <= |b| <= 2
    ensures Join(Split(b[0], if |b| == 2 then b[1] else 0, 0))[..|b|] == b
  {
    JoinSplit(b[0], if |b| == 2 then b[1] else 0, 0);
  }

  lemma DecodeTail(b: seq<byte>)
    requires 1 <= |b| <= 2
    ensures Decode(Encode(b)) == Some(b)
  {
    var q := Split(b[0], if |b| == 2 then b[1] else 0, 0);
    var s := Encode(b);
    assert |s| == 4 && s[0] == Symbol(q.v0) && s[1] == Symbol(q.v1) && s[3] == Pad;
    assert s[2] == if |b| == 2 then Symbol(q.v2) else Pad;
    DecodeFinalGroup(s);
    DecodePadded(q, |b| == 2);
    TailBytes(b);
  }

  lemma DecodeFirstGroup(s: string, head: seq<byte>, tail: seq<byte>)
    requires |s| >= 4
    requires DecodeGroup(s[0], s[1], s[2], s[3], |s| == 4) == Some(head)
    requires Decode(s[4..]) == Some(tail)
    ensures Decode(s) == Some(head + tail)
  {
  }

  lemma DecodeFinalGroup(s: string)
    requires |s| == 4
    ensures Decode(s) == DecodeGroup(s[0], s[1], s[2], s[3], true)
  {
    assert forall g: seq<byte> :: g + [] == g;
    var e := s[4..];
    assert e == [];
    assert Decode(e) == Some([]);
  }

  /**
   * Kept as a lemma of its own: stated inline next to the `Decode(Encode(b))`
   * goal of `GroupStep`, this sequence identity exhausts the solver.
   */
  lemma SplitFirstGroup(b: seq<byte>)
    requires |b| >= 3
    ensures [b[0], b[1], b[2]] + b[3..] == b
  {
  }

  lemma GroupStep(b: seq<byte>)
    requires |b| >= 3 && Decode(Encode(b[3..])) == Some(b[3..])
    ensures Decode(Encode(b)) == Some(b)
  {
    var q := Split(b[0], b[1], b[2]);
    var s, t := Encode(b), Encode(b[3..]);
    assert s == [Symbol(q.v0), Symbol(q.v1), Symbol(q.v2), Symbol(q.v3)] + t;
    assert s[0] == Symbol(q.v0) && s[1] == Symbol(q.v1) && s[2] == Symbol(q.v2) && s[3] == Symbol(q.v3);
    assert s[4..] == t;
    DecodeSymbols(q, |s| == 4);
    JoinSplit(b[0], b[1], b[2]);
    DecodeFirstGroup(s, [b[0], b[1], b[2]], b[3..]);
    SplitFirstGroup(b);
  }

  /** Decoding undoes encoding. */
  lemma {:induction false} DecodeEncode(b: seq<byte>)
    ensures Decode(Encode(b)) == Some(b)
    decreases |b|
  {
    if |b| == 0 {
    } else if |b| <= 2 {
      DecodeTail(b);
    } else {
      DecodeEncode(b[3..]);
      GroupStep(b);
    }
  }

  /** Distinct byte strings have distinct encodings. */
  lemma EncodeInjective(a: seq<byte>, b: seq<byte>)
    requires Encode(a) == Encode(b)
    ensures a == b
  {
    DecodeEncode(a);
    DecodeEncode(b);
  }
}
