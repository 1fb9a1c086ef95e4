/**
 * Standard Base64 (RFC 4648, section 4): the printable form of a mutex token.
 * A token is 32 random bytes; Encode turns them into 44 characters over the
 * standard alphabet with one '=' of padding. Decode is its inverse and is
 * here only to state that encoding loses nothing (so distinct random bytes
 * give distinct tokens).
 */
module Base64 {

  newtype byte = x: int | 0 <= x < 256

  /** A 6-bit group: the index of one symbol of the alphabet. */
  type Sextet = x: int | 0 <= x < 64

  const PAD: char := '='

  /** The standard alphabet "A".."Z", "a".."z", "0".."9", "+", "/" (RFC 4648, table 1). */
  function Symbol(i: Sextet): char
  {
    if i < 26 then ('A' as int + i) as char
    else if i < 52 then ('a' as int + (i - 26)) as char
    else if i < 62 then ('0' as int + (i - 52)) as char
    else if i == 62 then '+'
    else '/'
  }

  predicate IsSymbol(c: char)
  {
    ('A' <= c <= 'Z') || ('a' <= c <= 'z') || ('0' <= c <= '9') || c == '+' || c == '/'
  }

  /** The position of a character in the alphabet, or -1 if it is not a symbol. */
  function IndexOf(c: char): (i: int)
    ensures -1 <= i < 64
  {
    if 'A' <= c <= 'Z' then c as int - 'A' as int
    else if 'a' <= c <= 'z' then c as int - 'a' as int + 26
    else if '0' <= c <= '9' then c as int - '0' as int + 52
    else if c == '+' then 62
    else if c == '/' then 63
    else -1
  }

  /** IndexOf is the inverse of Symbol on the alphabet, and rejects everything else. */
  lemma IndexOfSymbol(c: char)
    ensures IsSymbol(c) <==> IndexOf(c) >= 0
    ensures IndexOf(c) >= 0 ==> Symbol(IndexOf(c)) == c
  {
  }

  /** Every symbol is in the alphabet, and its index is where it came from. */
  lemma SymbolIndex(i: Sextet)
    ensures IsSymbol(Symbol(i)) && IndexOf(Symbol(i)) == i
  {
  }

  // The four 6-bit groups of three bytes a, b, c, most significant bits first.
  function Hi(a: byte): Sextet { a as int / 4 }
  function MidHi(a: byte, b: byte): Sextet { (a as int % 4) * 16 + b as int / 16 }
  function MidLo(b: byte, c: byte): Sextet { (b as int % 16) * 4 + c as int / 64 }
  function Lo(c: byte): Sextet { c as int % 64 }

  // The three bytes reassembled from four 6-bit groups.
  function Byte0(i0: Sextet, i1: Sextet): byte { (i0 * 4 + i1 / 16) as byte }
  function Byte1(i1: Sextet, i2: Sextet): byte { ((i1 % 16) * 16 + i2 / 4) as byte }
  function Byte2(i2: Sextet, i3: Sextet): byte { ((i2 % 4) * 64 + i3) as byte }

  lemma SplitJoin(a: byte, b: byte, c: byte)
    ensures Byte0(Hi(a), MidHi(a, b)) == a
    ensures Byte1(MidHi(a, b), MidLo(b, c)) == b
    ensures Byte2(MidLo(b, c), Lo(c)) == c
  {
    var a1, a2 := a as int / 4, a as int % 4;
    var b1, b2 := b as int / 16, b as int % 16;
    var c1, c2 := c as int / 64, c as int % 64;
    assert (a2 * 16 + b1) / 16 == a2 && (a2 * 16 + b1) % 16 == b1;
    assert (b2 * 4 + c1) / 4 == b2 && (b2 * 4 + c1) % 4 == c1;
  }

  /** Three bytes become four symbols. */
  function EncodeTriple(a: byte, b: byte, c: byte): string
  {
    [Symbol(Hi(a)), Symbol(MidHi(a, b)), Symbol(MidLo(b, c)), Symbol(Lo(c))]
  }

  /** A final single byte: two symbols and "==". */
  function EncodeLastOne(a: byte): string
  {
    [Symbol(Hi(a)), Symbol(MidHi(a, 0)), PAD, PAD]
  }

  /** A final pair of bytes: three symbols and "=". */
  function EncodeLastTwo(a: byte, b: byte): string
  {
    [Symbol(Hi(a)), Symbol(MidHi(a, b)), Symbol(MidLo(b, 0)), PAD]
  }

  /** Number of '=' characters that end the encoding of n bytes. */
  function PadCount(n: nat): nat
  {
    (3 - n % 3) % 3
  }

  /**
   * Standard encoding with padding: every full group of three bytes gives
   * four symbols; a final group of one or two bytes gives two or three
   * symbols followed by "==" or "=".
   */
  function Encode(s: seq<byte>): string
    decreases |s|
  {
    if |s| == 0 then []
    else if |s| == 1 then EncodeLastOne(s[0])
    else if |s| == 2 then EncodeLastTwo(s[0], s[1])
    else EncodeTriple(s[0], s[1], s[2]) + Encode(s[3..])
  }

  lemma EncodeGroupsAreSymbols(a: byte, b: byte, c: byte)
    ensures forall i | 0 <= i < 4 :: IsSymbol(EncodeTriple(a, b, c)[i])
    ensures IsSymbol(EncodeLastOne(a)[0]) && IsSymbol(EncodeLastOne(a)[1])
    ensures IsSymbol(EncodeLastTwo(a, b)[0]) && IsSymbol(EncodeLastTwo(a, b)[1]) && IsSymbol(EncodeLastTwo(a, b)[2])
  {
    SymbolIndex(Hi(a));
    SymbolIndex(MidHi(a, b));
    SymbolIndex(MidLo(b, c));
    SymbolIndex(Lo(c));
    SymbolIndex(MidHi(a, 0));
    SymbolIndex(MidLo(b, 0));
  }

  /** `e` is symbols of the alphabet followed by exactly `pad` padding characters. */
  predicate PaddedSymbols(e: string, pad: nat)
  {
    pad <= |e| &&
    (forall i | 0 <= i < |e| - pad :: IsSymbol(e[i])) &&
    (forall i | |e| - pad <= i < |e| :: e[i] == PAD)
  }

  lemma PrependSymbols(head: string, rest: string, pad: nat)
    requires |head| == 4 && forall i | 0 <= i < 4 :: IsSymbol(head[i])
    requires PaddedSymbols(rest, pad)
    ensures PaddedSymbols(head + rest, pad)
  {
    var e := head + rest;
    forall i | 0 <= i < |e| - pad
      ensures IsSymbol(e[i])
    {
      if i >= 4 { assert e[i] == rest[i - 4]; }
    }
    forall i | |e| - pad <= i < |e|
      ensures e[i] == PAD
    {
      assert e[i] == rest[i - 4];
    }
  }

  lemma LastGroupsShape(a: byte, b: byte)
    ensures PaddedSymbols(EncodeLastOne(a), 2) && |EncodeLastOne(a)| == 4
    ensures PaddedSymbols(EncodeLastTwo(a, b), 1) && |EncodeLastTwo(a, b)| == 4
  {
    EncodeGroupsAreSymbols(a, b, 0);
  }

  /** The encoding of bytes beyond the first three is that of the first three followed by the rest. */
  lemma EncodeStep(s: seq<byte>)
    requires |s| > 2
    ensures Encode(s) == EncodeTriple(s[0], s[1], s[2]) + Encode(s[3..])
    ensures PadCount(|s|) == PadCount(|s| - 3) && (|s| + 2) / 3 == (|s| - 3 + 2) / 3 + 1
  {
  }

  /**
   * The encoding of n bytes has 4 * ceil(n / 3) characters: symbols of the
   * alphabet followed by PadCount(n) padding characters.
   */
  lemma {:induction false} EncodeShape(s: seq<byte>)
    ensures |Encode(s)| == 4 * ((|s| + 2) / 3)
    ensures PaddedSymbols(Encode(s), PadCount(|s|))
    decreases |s|
  {
    if |s| == 1 {
      assert Encode(s) == EncodeLastOne(s[0]);
      LastGroupsShape(s[0], 0);
    } else if |s| == 2 {
      assert Encode(s) == EncodeLastTwo(s[0], s[1]);
      LastGroupsShape(s[0], s[1]);
    } else if |s| > 2 {
      EncodeStep(s);
      EncodeShape(s[3..]);
      EncodeGroupsAreSymbols(s[0], s[1], s[2]);
      PrependSymbols(EncodeTriple(s[0], s[1], s[2]), Encode(s[3..]), PadCount(|s|));
    }
  }

  datatype Decoded = Malformed | Bytes(value: seq<byte>)

  /** A group of four symbols: three bytes, or Malformed if one is not a symbol. */
  function DecodeFull(c0: char, c1: char, c2: char, c3: char): Decoded
  {
    var i0, i1, i2, i3 := IndexOf(c0), IndexOf(c1), IndexOf(c2), IndexOf(c3);
    if i0 < 0 || i1 < 0 || i2 < 0 || i3 < 0 then Malformed
    else Bytes([Byte0(i0, i1), Byte1(i1, i2), Byte2(i2, i3)])
  }

  /** The last group, which may end in "==" (one byte) or "=" (two bytes). */
  function DecodeLast(c0: char, c1: char, c2: char, c3: char): Decoded
  {
    var i0, i1, i2 := IndexOf(c0), IndexOf(c1), IndexOf(c2);
    if i0 < 0 || i1 < 0 then Malformed
    else if c2 == PAD && c3 == PAD then Bytes([Byte0(i0, i1)])
    else if i2 >= 0 && c3 == PAD then Bytes([Byte0(i0, i1), Byte1(i1, i2)])
    else DecodeFull(c0, c1, c2, c3)
  }

  /** Inverse of Encode: Malformed on a length that is not a multiple of four or a misplaced character. */
  function Decode(t: string): Decoded
    decreases |t|
  {
    if |t| == 0 then Bytes([])
    else if |t| < 4 then Malformed
    else if |t| == 4 then DecodeLast(t[0], t[1], t[2], t[3])
    else
      match (DecodeFull(t[0], t[1], t[2], t[3]), Decode(t[4..]))
      case (Bytes(group), Bytes(rest)) => Bytes(group + rest)
      case _ => Malformed
  }

  lemma DecodeSymbols(i0: Sextet, i1: Sextet, i2: Sextet, i3: Sextet)
    ensures DecodeFull(Symbol(i0), Symbol(i1), Symbol(i2), Symbol(i3))
            == Bytes([Byte0(i0, i1), Byte1(i1, i2), Byte2(i2, i3)])
    ensures DecodeLast(Symbol(i0), Symbol(i1), Symbol(i2), Symbol(i3))
            == Bytes([Byte0(i0, i1), Byte1(i1, i2), Byte2(i2, i3)])
    ensures DecodeLast(Symbol(i0), Symbol(i1), Symbol(i2), PAD) == Bytes([Byte0(i0, i1), Byte1(i1, i2)])
    ensures DecodeLast(Symbol(i0), Symbol(i1), PAD, PAD) == Bytes([Byte0(i0, i1)])
  {
    SymbolIndex(i0);
    SymbolIndex(i1);
    SymbolIndex(i2);
    SymbolIndex(i3);
  }

  lemma DecodeTriple(a: byte, b: byte, c: byte)
    ensures var e := EncodeTriple(a, b, c);
            DecodeFull(e[0], e[1], e[2], e[3]) == Bytes([a, b, c]) &&
            DecodeLast(e[0], e[1], e[2], e[3]) == Bytes([a, b, c])
  {
    var i0, i1, i2, i3 := Hi(a), MidHi(a, b), MidLo(b, c), Lo(c);
    assert [Byte0(i0, i1), Byte1(i1, i2), Byte2(i2, i3)] == [a, b, c] by { SplitJoin(a, b, c); }
    DecodeSymbols(i0, i1, i2, i3);
  }

  lemma DecodeLastOne(a: byte)
    ensures Decode(EncodeLastOne(a)) == Bytes([a])
  {
    var i0, i1 := Hi(a), MidHi(a, 0);
    assert Decode(EncodeLastOne(a)) == DecodeLast(Symbol(i0), Symbol(i1), PAD, PAD);
    assert DecodeLast(Symbol(i0), Symbol(i1), PAD, PAD) == Bytes([Byte0(i0, i1)]) by { DecodeSymbols(i0, i1, 0, 0); }
    assert Byte0(i0, i1) == a by { SplitJoin(a, 0, 0); }
  }

  lemma DecodeLastTwo(a: byte, b: byte)
    ensures Decode(EncodeLastTwo(a, b)) == Bytes([a, b])
  {
    var i0, i1, i2 := Hi(a), MidHi(a, b), MidLo(b, 0);
    assert Decode(EncodeLastTwo(a, b)) == DecodeLast(Symbol(i0), Symbol(i1), Symbol(i2), PAD);
    assert DecodeLast(Symbol(i0), Symbol(i1), Symbol(i2), PAD) == Bytes([Byte0(i0, i1), Byte1(i1, i2)])
      by { DecodeSymbols(i0, i1, i2, 0); }
    assert Byte0(i0, i1) == a && Byte1(i1, i2) == b by { SplitJoin(a, b, 0); }
  }

  /** Decoding recovers exactly the bytes that were encoded. */
  lemma {:induction false} DecodeEncode(s: seq<byte>)
    ensures Decode(Encode(s)) == Bytes(s)
    decreases |s|
  {
    if |s| == 1 {
      DecodeLastOne(s[0]);
      assert s == [s[0]];
    } else if |s| == 2 {
      DecodeLastTwo(s[0], s[1]);
      assert s == [s[0], s[1]];
    } else if |s| > 2 {
      var tail := s[3..];
      var head, rest := EncodeTriple(s[0], s[1], s[2]), Encode(tail);
      var t := Encode(s);
      assert t == head + rest;
      assert s == [s[0], s[1], s[2]] + tail;
      assert t[..4] == head;
      if |tail| == 0 {
        assert t == head;
        assert Decode(t) == DecodeLast(head[0], head[1], head[2], head[3]);
        DecodeTriple(s[0], s[1], s[2]);
      } else {
        assert |rest| > 0 by { EncodeShape(tail); }
        assert t[4..] == rest;
        assert Decode(t) == match (DecodeFull(head[0], head[1], head[2], head[3]), Decode(rest))
                            case (Bytes(group), Bytes(r)) => Bytes(group + r)
                            case _ => Malformed;
        DecodeTriple(s[0], s[1], s[2]);
        DecodeEncode(tail);
      }
    }
  }

  /** Distinct byte strings give distinct encodings. */
  lemma EncodeInjective(s: seq<byte>, u: seq<byte>)
    requires s != u
    ensures Encode(s) != Encode(u)
  {
    DecodeEncode(s);
    DecodeEncode(u);
  }

  /** The token of a mutex: 32 bytes are 44 characters, 43 symbols and then exactly one '='. */
  lemma TokenShape(s: seq<byte>)
    requires |s| == 32
    ensures |Encode(s)| == 44
    ensures forall i | 0 <= i < 43 :: IsSymbol(Encode(s)[i])
    ensures forall i | 0 <= i < 44 :: Encode(s)[i] == PAD <==> i == 43
  {
    var e := Encode(s);
    EncodeShape(s);
    assert |e| == 44 && PadCount(|s|) == 1;
    assert PaddedSymbols(e, 1);
    forall i | 0 <= i < 44
      ensures i < 43 ==> IsSymbol(e[i]) && e[i] != PAD
      ensures i == 43 ==> e[i] == PAD
    {
    }
  }
}
