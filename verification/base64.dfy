/** Standard Base64 with padding, as in section 4 of RFC 4648: the encoding the
    image filter uses for data URIs. */
module Base64 {
  import opened Wrappers

  type byte = x: int | 0 <= x < 256

  /** A 6-bit value. */
  type sextet = x: int | 0 <= x < 64

  /** The alphabet of table 1 in section 4 of RFC 4648. */
  function Symbol(v: sextet): (c: char)
    ensures c != '='
  {
    if v < 26 then ('A' as int + v) as char
    else if v < 52 then ('a' as int + (v - 26)) as char
    else if v < 62 then ('0' as int + (v - 52)) as char
    else if v == 62 then '+'
    else '/'
  }

  /** The value of an alphabet char; None for anything else, padding included. */
  function SymbolValue(c: char): (r: Option<sextet>)
    ensures r.Some? <==> IsSymbolChar(c)
  {
    if 'A' <= c <= 'Z' then Some(c as int - 'A' as int)
    else if 'a' <= c <= 'z' then Some(c as int - 'a' as int + 26)
    else if '0' <= c <= '9' then Some(c as int - '0' as int + 52)
    else if c == '+' then Some(62)
    else if c == '/' then Some(63)
    else None
  }

  predicate IsSymbolChar(c: char) {
    'A' <= c <= 'Z' || 'a' <= c <= 'z' || '0' <= c <= '9' || c == '+' || c == '/'
  }

  /** `SymbolValue` inverts `Symbol` on the sextets... */
  lemma SymbolValueOfSymbol(v: sextet)
    ensures SymbolValue(Symbol(v)) == Some(v)
  {
  }

  /** ... and `Symbol` inverts `SymbolValue` on the alphabet. */
  lemma SymbolOfSymbolValue(c: char)
    requires IsSymbolChar(c)
    ensures Symbol(SymbolValue(c).value) == c
  {
  }

  /** The 24 bits of three bytes cut into four sextets, most significant first;
      missing bytes count as zero bits. */
  function Sextet0(b0: byte): sextet { b0 / 4 }
  function Sextet1(b0: byte, b1: byte): sextet { (b0 % 4) * 16 + b1 / 16 }
  function Sextet2(b1: byte, b2: byte): sextet { (b1 % 16) * 4 + b2 / 64 }
  function Sextet3(b2: byte): sextet { b2 % 64 }

  /** The bytes carried by four sextets. */
  function Byte0(a: sextet, b: sextet): byte { a * 4 + b / 16 }
  function Byte1(b: sextet, c: sextet): byte { (b % 16) * 16 + c / 4 }
  function Byte2(c: sextet, d: sextet): byte { (c % 4) * 64 + d }

  /** Cutting bytes into sextets and joining them back is the identity, byte by
      byte. */
  lemma JoinByte0(b0: byte, b1: byte)
    ensures Byte0(Sextet0(b0), Sextet1(b0, b1)) == b0
  {
  }

  lemma JoinByte1(b0: byte, b1: byte, b2: byte)
    ensures Byte1(Sextet1(b0, b1), Sextet2(b1, b2)) == b1
  {
    var hi := b1 / 16;
    var lo := b1 % 16;
    assert Sextet1(b0, b1) % 16 == hi by {
      assert Sextet1(b0, b1) == (b0 % 4) * 16 + hi;
    }
    assert Sextet2(b1, b2) / 4 == lo by {
      assert Sextet2(b1, b2) == lo * 4 + b2 / 64;
      assert 0 <= b2 / 64 < 4;
    }
  }

  lemma JoinByte2(b1: byte, b2: byte)
    ensures Byte2(Sextet2(b1, b2), Sextet3(b2)) == b2
  {
  }

  /** The encoding of `bytes`: whole groups of three, then one group of one or two
      bytes padded with '=' to four chars. */
  function Encode(bytes: seq<byte>): string
    decreases |bytes|
  {
    if |bytes| == 0 then ""
    else if |bytes| == 1 then
      [Symbol(Sextet0(bytes[0])), Symbol(Sextet1(bytes[0], 0)), '=', '=']
    else if |bytes| == 2 then
      [Symbol(Sextet0(bytes[0])), Symbol(Sextet1(bytes[0], bytes[1])), Symbol(Sextet2(bytes[1], 0)), '=']
    else
      [Symbol(Sextet0(bytes[0])), Symbol(Sextet1(bytes[0], bytes[1])),
       Symbol(Sextet2(bytes[1], bytes[2])), Symbol(Sextet3(bytes[2]))]
      + Encode(bytes[3..])
  }

  /** Decoding of the padded alphabet; None on a wrong length, a foreign char or
      misplaced padding. Non-zero bits before the padding are ignored. */
  function Decode(s: string): (r: Option<seq<byte>>)
    decreases |s|
  {
    if |s| == 0 then Some([])
    else if |s| < 4 then None
    else
      var v0 := SymbolValue(s[0]);
      var v1 := SymbolValue(s[1]);
      var v2 := SymbolValue(s[2]);
      var v3 := SymbolValue(s[3]);
      if v0.None? || v1.None? then None
      else if |s| == 4 && s[2] == '=' && s[3] == '=' then
        Some([Byte0(v0.value, v1.value)])
      else if v2.None? then None
      else if |s| == 4 && s[3] == '=' then
        Some([Byte0(v0.value, v1.value), Byte1(v1.value, v2.value)])
      else if v3.None? then None
      else
        var rest := Decode(s[4..]);
        if rest.None? then None
        else Some([Byte0(v0.value, v1.value), Byte1(v1.value, v2.value), Byte2(v2.value, v3.value)] + rest.value)
  }

  /** Four chars for every started group of three bytes. */
  lemma {:induction false} EncodeLength(bytes: seq<byte>)
    ensures |Encode(bytes)| == 4 * ((|bytes| + 2) / 3)
    decreases |bytes|
  {
    if |bytes| >= 3 {
      EncodeLength(bytes[3..]);
      assert (|bytes| + 2) / 3 == (|bytes[3..]| + 2) / 3 + 1;
    }
  }

  /** Every char of an encoding is an alphabet char or the padding '='. */
  lemma {:induction false} EncodeAlphabet(bytes: seq<byte>)
    ensures forall i :: 0 <= i < |Encode(bytes)| ==> IsSymbolChar(Encode(bytes)[i]) || Encode(bytes)[i] == '='
    decreases |bytes|
  {
    forall v: sextet ensures IsSymbolChar(Symbol(v)) {
      SymbolValueOfSymbol(v);
    }
    if |bytes| >= 3 {
      EncodeAlphabet(bytes[3..]);
      var e := Encode(bytes);
      var rest := Encode(bytes[3..]);
      forall i | 4 <= i < |e| ensures e[i] == rest[i - 4] {
      }
    }
  }

  /** Decoding an encoding gives the bytes back. */
  lemma {:induction false} DecodeEncode(bytes: seq<byte>)
    ensures Decode(Encode(bytes)) == Some(bytes)
    decreases |bytes|
  {
    if |bytes| == 1 {
      DecodeEncodeOne(bytes);
    } else if |bytes| == 2 {
      DecodeEncodeTwo(bytes);
    } else if |bytes| >= 3 {
      DecodeEncode(bytes[3..]);
      DecodeEncodeGroup(bytes);
    }
  }

  lemma DecodeEncodeOne(bytes: seq<byte>)
    requires |bytes| == 1
    ensures Decode(Encode(bytes)) == Some(bytes)
  {
    assert Encode(bytes) == [Symbol(Sextet0(bytes[0])), Symbol(Sextet1(bytes[0], 0)), '=', '='];
    DecodeQuadOne(Sextet0(bytes[0]), Sextet1(bytes[0], 0));
    JoinByte0(bytes[0], 0);
    assert bytes == [bytes[0]];
  }

  lemma DecodeEncodeTwo(bytes: seq<byte>)
    requires |bytes| == 2
    ensures Decode(Encode(bytes)) == Some(bytes)
  {
    assert Encode(bytes) == [Symbol(Sextet0(bytes[0])), Symbol(Sextet1(bytes[0], bytes[1])),
      Symbol(Sextet2(bytes[1], 0)), '='];
    DecodeQuadTwo(Sextet0(bytes[0]), Sextet1(bytes[0], bytes[1]), Sextet2(bytes[1], 0));
    JoinByte0(bytes[0], bytes[1]);
    JoinByte1(bytes[0], bytes[1], 0);
    assert bytes == [bytes[0], bytes[1]];
  }

  /** One whole group: the encoding of three bytes and a tail decodes to the three
      bytes followed by the tail's decoding. */
  lemma DecodeEncodeGroup(bytes: seq<byte>)
    requires |bytes| >= 3
    requires Decode(Encode(bytes[3..])) == Some(bytes[3..])
    ensures Decode(Encode(bytes)) == Some(bytes)
  {
    assert Encode(bytes) == [Symbol(Sextet0(bytes[0])), Symbol(Sextet1(bytes[0], bytes[1])),
      Symbol(Sextet2(bytes[1], bytes[2])), Symbol(Sextet3(bytes[2]))] + Encode(bytes[3..]);
    DecodeQuadThree(Sextet0(bytes[0]), Sextet1(bytes[0], bytes[1]), Sextet2(bytes[1], bytes[2]),
      Sextet3(bytes[2]), Encode(bytes[3..]));
    JoinByte0(bytes[0], bytes[1]);
    JoinByte1(bytes[0], bytes[1], bytes[2]);
    JoinByte2(bytes[1], bytes[2]);
    assert bytes == [bytes[0], bytes[1], bytes[2]] + bytes[3..];
  }

  /** A group with two padding chars carries one byte. */
  lemma DecodeQuadOne(a: sextet, b: sextet)
    ensures Decode([Symbol(a), Symbol(b), '=', '=']) == Some([Byte0(a, b)])
  {
    SymbolValueOfSymbol(a);
    SymbolValueOfSymbol(b);
  }

  /** A group with one padding char carries two bytes. */
  lemma DecodeQuadTwo(a: sextet, b: sextet, c: sextet)
    ensures Decode([Symbol(a), Symbol(b), Symbol(c), '=']) == Some([Byte0(a, b), Byte1(b, c)])
  {
    SymbolValueOfSymbol(a);
    SymbolValueOfSymbol(b);
    SymbolValueOfSymbol(c);
  }

  /** A group of four symbols carries three bytes and decoding goes on after it. */
  lemma DecodeQuadThree(a: sextet, b: sextet, c: sextet, d: sextet, rest: string)
    ensures var s := [Symbol(a), Symbol(b), Symbol(c), Symbol(d)] + rest;
      Decode(s) == if Decode(rest).None? then None
        else Some([Byte0(a, b), Byte1(b, c), Byte2(c, d)] + Decode(rest).value)
  {
    SymbolValueOfSymbol(a);
    SymbolValueOfSymbol(b);
    SymbolValueOfSymbol(c);
    SymbolValueOfSymbol(d);
    var s := [Symbol(a), Symbol(b), Symbol(c), Symbol(d)] + rest;
    assert s[4..] == rest;
  }

  /** The examples of section 10 of RFC 4648: "foobar" encodes to "Zm9vYmFy",
      and "fo" to "Zm8=". */
  lemma EncodeRfcVectors()
    ensures Encode([102, 111, 111, 98, 97, 114]) == "Zm9vYmFy"
    ensures Encode([102, 111]) == "Zm8="
  {
    var foobar: seq<byte> := [102, 111, 111, 98, 97, 114];
    assert foobar[3..] == [98, 97, 114];
    assert foobar[3..][3..] == [];
  }
}
