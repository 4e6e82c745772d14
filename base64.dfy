/**
 * The base 64 encoding of section 4 of RFC 4648 (alphabet A-Z a-z 0-9 + /, with
 * '=' padding), which the banner command applies to the uploaded image bytes,
 * and its decoder, which the lemmas use to show that the encoding loses nothing.
 */
module Base64 {
  import opened Wrappers

  type byte = x: int | 0 <= x < 256

  /** A 6-bit value: the index of one character of the alphabet. */
  type sextet = x: int | 0 <= x < 64

  /** The alphabet table of section 4 of RFC 4648, value 0 first. */
  const Alphabet: string := "ABCDEFGHIJKLMNOPQRSTUVWXYZ" + "abcdefghijklmnopqrstuvwxyz" + "0123456789" + "+/"

  const Pad: char := '='

  function CharOf(v: sextet): (c: char)
  {
    if v < 26 then ('A' as int + v) as char
    else if v < 52 then ('a' as int + (v - 26)) as char
    else if v < 62 then ('0' as int + (v - 52)) as char
    else if v == 62 then '+'
    else '/'
  }

  /** The value a character stands for, or `None` for a character outside the alphabet. */
  function ValueOf(c: char): (r: Option<sextet>)
  {
    if 'A' <= c <= 'Z' then Some(c as int - 'A' as int)
    else if 'a' <= c <= 'z' then Some(c as int - 'a' as int + 26)
    else if '0' <= c <= '9' then Some(c as int - '0' as int + 52)
    else if c == '+' then Some(62)
    else if c == '/' then Some(63)
    else None
  }

  lemma ValueOfCharOf(v: sextet)
    ensures ValueOf(CharOf(v)) == Some(v)
  {
  }

  lemma CharOfValueOf(c: char)
    requires ValueOf(c).Some?
    ensures CharOf(ValueOf(c).value) == c
  {
  }

  /** The character arithmetic above agrees with the table of the standard. */
  lemma CharOfIsAlphabet(v: sextet)
    ensures |Alphabet| == 64 && CharOf(v) == Alphabet[v]
  {
    if v < 26 {
      assert Alphabet[v] == "ABCDEFGHIJKLMNOPQRSTUVWXYZ"[v];
    } else if v < 52 {
      assert Alphabet[v] == "abcdefghijklmnopqrstuvwxyz"[v - 26];
    } else if v < 62 {
      assert Alphabet[v] == "0123456789"[v - 52];
    }
  }

  predicate InAlphabet(c: char) {
    ValueOf(c).Some?
  }

  /** Three bytes (24 bits) become four characters, 6 bits each, high bits first. */
  function EncodeQuantum(b0: byte, b1: byte, b2: byte): (s: string)
  {
    [CharOf(b0 / 4), CharOf((b0 % 4) * 16 + b1 / 16), CharOf((b1 % 16) * 4 + b2 / 64), CharOf(b2 % 64)]
  }

  /** `base64.b64encode`: full quanta, then a final quantum of one or two bytes padded with '='. */
  function Encode(b: seq<byte>): (s: string)
    ensures |s| == 4 * ((|b| + 2) / 3)
    decreases |b|
  {
    if |b| == 0 then []
    else if |b| == 1 then [CharOf(b[0] / 4), CharOf((b[0] % 4) * 16), Pad, Pad]
    else if |b| == 2 then [CharOf(b[0] / 4), CharOf((b[0] % 4) * 16 + b[1] / 16), CharOf((b[1] % 16) * 4), Pad]
    else EncodeQuantum(b[0], b[1], b[2]) + Encode(b[3..])
  }

  /** Four alphabet characters back to three bytes. */
  function DecodeQuantum(c0: sextet, c1: sextet, c2: sextet, c3: sextet): (b: seq<byte>)
  {
    [c0 * 4 + c1 / 16, (c1 % 16) * 16 + c2 / 4, (c2 % 4) * 64 + c3]
  }

  /** A quantum without padding. */
  function DecodeFull(c0: char, c1: char, c2: char, c3: char): (r: Option<seq<byte>>) {
    var v0, v1, v2, v3 := ValueOf(c0), ValueOf(c1), ValueOf(c2), ValueOf(c3);
    if v0.Some? && v1.Some? && v2.Some? && v3.Some? then Some(DecodeQuantum(v0.value, v1.value, v2.value, v3.value))
    else None
  }

  /**
   * The last quantum, which may end in one or two '='; the bits the padding
   * discards must be zero (section 3.5 of RFC 4648).
   */
  function DecodeLast(c0: char, c1: char, c2: char, c3: char): (r: Option<seq<byte>>) {
    var v0, v1, v2 := ValueOf(c0), ValueOf(c1), ValueOf(c2);
    if v0.Some? && v1.Some? && c2 == Pad && c3 == Pad then
      if v1.value % 16 == 0 then Some([v0.value * 4 + v1.value / 16]) else None
    else if v0.Some? && v1.Some? && v2.Some? && c3 == Pad then
      if v2.value % 4 == 0 then Some([v0.value * 4 + v1.value / 16, (v1.value % 16) * 16 + v2.value / 4]) else None
    else DecodeFull(c0, c1, c2, c3)
  }

  /**
   * Decoding of canonical encodings: the length is a multiple of four and
   * padding only closes the last quantum. Anything else is `None`.
   */
  function Decode(s: string): (r: Option<seq<byte>>)
    decreases |s|
  {
    if |s| == 0 then Some([])
    else if |s| < 4 then None
    else if |s| == 4 then DecodeLast(s[0], s[1], s[2], s[3])
    else
      match DecodeFull(s[0], s[1], s[2], s[3])
      case None => None
      case Some(first) =>
        match Decode(s[4..])
        case None => None
        case Some(rest) => Some(first + rest)
  }

  // The arithmetic layer: regrouping bits, with no characters involved.

  lemma DivMod4(q: int, r: int)
    requires 0 <= r < 4
    ensures (q * 4 + r) / 4 == q && (q * 4 + r) % 4 == r
  {
  }

  lemma DivMod16(q: int, r: int)
    requires 0 <= r < 16
    ensures (q * 16 + r) / 16 == q && (q * 16 + r) % 16 == r
  {
  }

  lemma DivMod64(q: int, r: int)
    requires 0 <= r < 64
    ensures (q * 64 + r) / 64 == q && (q * 64 + r) % 64 == r
  {
  }

  /** Joining four sextets into three bytes and splitting them again is the identity. */
  lemma SextetsToBytes(x0: sextet, x1: sextet, x2: sextet, x3: sextet)
    ensures var b0, b1, b2 := x0 * 4 + x1 / 16, (x1 % 16) * 16 + x2 / 4, (x2 % 4) * 64 + x3;
      && 0 <= b0 < 256 && 0 <= b1 < 256 && 0 <= b2 < 256
      && b0 / 4 == x0 && (b0 % 4) * 16 + b1 / 16 == x1 && (b1 % 16) * 4 + b2 / 64 == x2 && b2 % 64 == x3
  {
    DivMod4(x0, x1 / 16);
    DivMod16(x1 % 16, x2 / 4);
    DivMod64(x2 % 4, x3);
  }

  /** Splitting three bytes into sextets and joining them again is the identity. */
  lemma BytesToSextets(b0: byte, b1: byte, b2: byte)
    ensures DecodeQuantum(b0 / 4, (b0 % 4) * 16 + b1 / 16, (b1 % 16) * 4 + b2 / 64, b2 % 64) == [b0, b1, b2]
  {
  }

  // The character layer, quantum by quantum.

  lemma QuantumRoundTrip(b0: byte, b1: byte, b2: byte)
    ensures var q := EncodeQuantum(b0, b1, b2);
      && q[2] != Pad && q[3] != Pad
      && DecodeFull(q[0], q[1], q[2], q[3]) == Some([b0, b1, b2])
  {
    var x0, x1, x2, x3 := b0 / 4, (b0 % 4) * 16 + b1 / 16, (b1 % 16) * 4 + b2 / 64, b2 % 64;
    ValueOfCharOf(x0);
    ValueOfCharOf(x1);
    ValueOfCharOf(x2);
    ValueOfCharOf(x3);
    BytesToSextets(b0, b1, b2);
  }

  lemma FinalOneRoundTrip(b0: byte)
    ensures DecodeLast(CharOf(b0 / 4), CharOf((b0 % 4) * 16), Pad, Pad) == Some([b0])
  {
    var x0, x1 := b0 / 4, (b0 % 4) * 16;
    ValueOfCharOf(x0);
    ValueOfCharOf(x1);
    assert x1 % 16 == 0 && x0 * 4 + x1 / 16 == b0;
  }

  lemma FinalTwoRoundTrip(b0: byte, b1: byte)
    ensures DecodeLast(CharOf(b0 / 4), CharOf((b0 % 4) * 16 + b1 / 16), CharOf((b1 % 16) * 4), Pad) == Some([b0, b1])
  {
    var x0, x1, x2 := b0 / 4, (b0 % 4) * 16 + b1 / 16, (b1 % 16) * 4;
    ValueOfCharOf(x0);
    ValueOfCharOf(x1);
    ValueOfCharOf(x2);
    assert CharOf(x2) != Pad;
    assert x2 % 4 == 0 && x0 * 4 + x1 / 16 == b0 && (x1 % 16) * 16 + x2 / 4 == b1;
  }

  /** A string that starts with a full quantum decodes as that quantum followed by the rest. */
  lemma DecodeCons(s: string, first: seq<byte>, rest: seq<byte>)
    requires |s| >= 4 && s[2] != Pad && s[3] != Pad
    requires DecodeFull(s[0], s[1], s[2], s[3]) == Some(first) && Decode(s[4..]) == Some(rest)
    ensures Decode(s) == Some(first + rest)
  {
    if |s| == 4 {
      assert rest == [];
      assert first + rest == first;
    }
  }

  lemma DecodeEncodeStep(b: seq<byte>, s: string, tail: string)
    requires |b| >= 3 && s == EncodeQuantum(b[0], b[1], b[2]) + tail && Decode(tail) == Some(b[3..])
    ensures Decode(s) == Some(b)
  {
    var q := EncodeQuantum(b[0], b[1], b[2]);
    assert s[0] == q[0] && s[1] == q[1] && s[2] == q[2] && s[3] == q[3];
    assert s[4..] == tail;
    QuantumRoundTrip(b[0], b[1], b[2]);
    DecodeCons(s, [b[0], b[1], b[2]], b[3..]);
    assert b == [b[0], b[1], b[2]] + b[3..];
  }

  /** Decoding an encoding gives back exactly the bytes that were encoded. */
  lemma {:induction false} DecodeEncode(b: seq<byte>)
    ensures Decode(Encode(b)) == Some(b)
    decreases |b|
  {
    if |b| == 1 {
      FinalOneRoundTrip(b[0]);
      assert b == [b[0]];
    } else if |b| == 2 {
      FinalTwoRoundTrip(b[0], b[1]);
      assert b == [b[0], b[1]];
    } else if |b| >= 3 {
      DecodeEncode(b[3..]);
      DecodeEncodeStep(b, Encode(b), Encode(b[3..]));
    }
  }

  lemma SextetQuantumInverse(x0: sextet, x1: sextet, x2: sextet, x3: sextet)
    ensures var b := DecodeQuantum(x0, x1, x2, x3);
      var q := EncodeQuantum(b[0], b[1], b[2]);
      |q| == 4 && q[0] == CharOf(x0) && q[1] == CharOf(x1) && q[2] == CharOf(x2) && q[3] == CharOf(x3)
  {
    SextetsToBytes(x0, x1, x2, x3);
  }

  lemma QuantumInverse(c0: char, c1: char, c2: char, c3: char)
    requires DecodeFull(c0, c1, c2, c3).Some?
    ensures var b := DecodeFull(c0, c1, c2, c3).value;
      |b| == 3 && EncodeQuantum(b[0], b[1], b[2]) == [c0, c1, c2, c3]
  {
    var v0, v1, v2, v3 := ValueOf(c0).value, ValueOf(c1).value, ValueOf(c2).value, ValueOf(c3).value;
    SextetQuantumInverse(v0, v1, v2, v3);
    CharOfValueOf(c0);
    CharOfValueOf(c1);
    CharOfValueOf(c2);
    CharOfValueOf(c3);
    var b := DecodeFull(c0, c1, c2, c3).value;
    var q := EncodeQuantum(b[0], b[1], b[2]);
    assert q == [q[0], q[1], q[2], q[3]];
  }

  lemma LastOneInverse(c0: char, c1: char)
    requires InAlphabet(c0) && InAlphabet(c1) && ValueOf(c1).value % 16 == 0
    ensures var v0: int, v1: int := ValueOf(c0).value, ValueOf(c1).value;
      0 <= v0 * 4 + v1 / 16 < 256 && Encode([v0 * 4 + v1 / 16]) == [c0, c1, Pad, Pad]
  {
    var v0: int, v1: int := ValueOf(c0).value, ValueOf(c1).value;
    SextetsToBytes(v0, v1, 0, 0);
    CharOfValueOf(c0);
    CharOfValueOf(c1);
    var b: seq<byte> := [v0 * 4 + v1 / 16];
    var s := Encode(b);
    assert s[0] == c0 && s[1] == c1;
  }

  lemma LastTwoInverse(c0: char, c1: char, c2: char)
    requires InAlphabet(c0) && InAlphabet(c1) && InAlphabet(c2) && ValueOf(c2).value % 4 == 0
    ensures var v0: int, v1: int, v2: int := ValueOf(c0).value, ValueOf(c1).value, ValueOf(c2).value;
      && 0 <= v0 * 4 + v1 / 16 < 256 && 0 <= (v1 % 16) * 16 + v2 / 4 < 256
      && Encode([v0 * 4 + v1 / 16, (v1 % 16) * 16 + v2 / 4]) == [c0, c1, c2, Pad]
  {
    var v0: int, v1: int, v2: int := ValueOf(c0).value, ValueOf(c1).value, ValueOf(c2).value;
    SextetsToBytes(v0, v1, v2, 0);
    CharOfValueOf(c0);
    CharOfValueOf(c1);
    CharOfValueOf(c2);
    var b: seq<byte> := [v0 * 4 + v1 / 16, (v1 % 16) * 16 + v2 / 4];
    var s := Encode(b);
    assert s[0] == c0 && s[1] == c1 && s[2] == c2;
  }

  lemma LastInverse(c0: char, c1: char, c2: char, c3: char)
    requires DecodeLast(c0, c1, c2, c3).Some?
    ensures Encode(DecodeLast(c0, c1, c2, c3).value) == [c0, c1, c2, c3]
  {
    var v0, v1, v2 := ValueOf(c0), ValueOf(c1), ValueOf(c2);
    if v0.Some? && v1.Some? && c2 == Pad && c3 == Pad {
      LastOneInverse(c0, c1);
    } else if v0.Some? && v1.Some? && v2.Some? && c3 == Pad {
      LastTwoInverse(c0, c1, c2);
    } else {
      QuantumInverse(c0, c1, c2, c3);
      var b := DecodeFull(c0, c1, c2, c3).value;
      assert Encode(b) == EncodeQuantum(b[0], b[1], b[2]) + Encode(b[3..]);
      assert b[3..] == [];
    }
  }

  /** A full quantum in front of any bytes is encoded in front of their encoding. */
  lemma EncodeCons(c0: char, c1: char, c2: char, c3: char, rest: seq<byte>, tail: string)
    requires DecodeFull(c0, c1, c2, c3).Some? && Encode(rest) == tail
    ensures Encode(DecodeFull(c0, c1, c2, c3).value + rest) == [c0, c1, c2, c3] + tail
  {
    var first := DecodeFull(c0, c1, c2, c3).value;
    QuantumInverse(c0, c1, c2, c3);
    var b := first + rest;
    assert b[..3] == first && b[3..] == rest;
    assert Encode(b) == EncodeQuantum(b[0], b[1], b[2]) + Encode(b[3..]);
  }

  /** Conversely, whatever decodes was the encoding of what it decodes to. */
  lemma {:induction false} EncodeDecode(s: string)
    requires Decode(s).Some?
    ensures Encode(Decode(s).value) == s
    decreases |s|
  {
    if |s| == 4 {
      LastInverse(s[0], s[1], s[2], s[3]);
      assert s == [s[0], s[1], s[2], s[3]];
    } else if |s| > 4 {
      EncodeDecode(s[4..]);
      EncodeCons(s[0], s[1], s[2], s[3], Decode(s[4..]).value, s[4..]);
      assert s == [s[0], s[1], s[2], s[3]] + s[4..];
    }
  }

  /** The encoding uses only the alphabet, with '=' at most in the last two places. */
  lemma {:induction false} EncodeAlphabet(b: seq<byte>)
    ensures forall i :: 0 <= i < |Encode(b)| ==>
      InAlphabet(Encode(b)[i]) || (Encode(b)[i] == Pad && i >= |Encode(b)| - 2)
    decreases |b|
  {
    if |b| >= 3 {
      EncodeAlphabet(b[3..]);
      var s := Encode(b);
      forall i | 0 <= i < |s|
        ensures InAlphabet(s[i]) || (s[i] == Pad && i >= |s| - 2)
      {
        if i >= 4 {
          assert s[i] == Encode(b[3..])[i - 4];
        }
      }
    }
  }
}
