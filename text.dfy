/** Bytes and text: the `encode`/`decode` helpers of the ledger, which turn a
    string into its UTF-8 bytes and back.  Decoding is strict, as Python's
    'utf-8' codec is: overlong forms, surrogates, code points above U+10FFFF,
    stray continuation bytes and truncated sequences are all rejected. */
module Text {

  newtype byte = x: int | 0 <= x < 256

  /** The byte that ends a line, b'\n'. */
  const Newline: byte := 10

  datatype Option<+T> = None | Some(value: T)

  /** `b` holds no newline byte. */
  predicate NoNewline(b: seq<byte>) {
    forall i :: 0 <= i < |b| ==> b[i] != Newline
  }

  /** `s` fits on one line: it holds no '\n'. */
  predicate OneLine(s: string) {
    forall i :: 0 <= i < |s| ==> s[i] != '\n'
  }

  predicate IsContinuation(b: byte) {
    0x80 <= b < 0xC0
  }

  /** UTF-8 encoding of one Unicode scalar value. */
  function EncodeChar(c: char): (r: seq<byte>)
    ensures 1 <= |r| <= 4
  {
    var n := c as int;
    if n < 0x80 then
      [n as byte]
    else if n < 0x800 then
      [(0xC0 + n / 64) as byte, (0x80 + n % 64) as byte]
    else if n < 0x10000 then
      [(0xE0 + n / 4096) as byte, (0x80 + n / 64 % 64) as byte, (0x80 + n % 64) as byte]
    else
      [(0xF0 + n / 262144) as byte, (0x80 + n / 4096 % 64) as byte,
       (0x80 + n / 64 % 64) as byte, (0x80 + n % 64) as byte]
  }

  /** `encode(s)`: the UTF-8 bytes of a string. */
  function Encode(s: string): (r: seq<byte>)
    ensures |r| >= |s|
  {
    if s == [] then [] else EncodeChar(s[0]) + Encode(s[1..])
  }

  /** The character a well-formed UTF-8 sequence at the front of `b` stands
      for, with the number of bytes it takes; None where Python's decoder
      raises. */
  function DecodeChar(b: seq<byte>): (r: Option<(char, nat)>)
    requires |b| > 0
    ensures r.Some? ==> 1 <= r.value.1 <= |b| && r.value.1 <= 4
  {
    var b0 := b[0] as int;
    if b0 < 0x80 then
      Some((b0 as char, 1))
    else if 0xC2 <= b0 < 0xE0 then
      if |b| >= 2 && IsContinuation(b[1]) then
        Some((((b0 - 0xC0) * 64 + (b[1] as int - 0x80)) as char, 2))
      else None
    else if 0xE0 <= b0 < 0xF0 then
      if |b| >= 3 && IsContinuation(b[1]) && IsContinuation(b[2]) then
        var n := (b0 - 0xE0) * 4096 + (b[1] as int - 0x80) * 64 + (b[2] as int - 0x80);
        if 0x800 <= n && !(0xD800 <= n < 0xE000) then Some((n as char, 3)) else None
      else None
    else if 0xF0 <= b0 < 0xF5 then
      if |b| >= 4 && IsContinuation(b[1]) && IsContinuation(b[2]) && IsContinuation(b[3]) then
        var n := (b0 - 0xF0) * 262144 + (b[1] as int - 0x80) * 4096
                 + (b[2] as int - 0x80) * 64 + (b[3] as int - 0x80);
        if 0x10000 <= n < 0x110000 then Some((n as char, 4)) else None
      else None
    else
      None
  }

  /** `decode(b)`: the string whose UTF-8 encoding is `b`, or None where
      Python raises UnicodeDecodeError. */
  function Decode(b: seq<byte>): (r: Option<string>)
    ensures r.Some? ==> |r.value| <= |b|
    decreases |b|
  {
    if b == [] then Some([])
    else
      match DecodeChar(b)
      case None => None
      case Some((c, k)) =>
        match Decode(b[k..])
        case None => None
        case Some(s) => Some([c] + s)
  }

  // ---------------------------------------------------------------------
  // Arithmetic on base-64 digits, used by both directions of the codec.

  lemma {:induction false} Digits2(n: int, q: int, r: int)
    requires 0 <= r < 64 && n == q * 64 + r
    ensures n / 64 == q && n % 64 == r
  {
  }

  lemma {:induction false} Digits3(n: int, q: int, r1: int, r0: int)
    requires 0 <= q && 0 <= r1 < 64 && 0 <= r0 < 64
    requires n == q * 4096 + r1 * 64 + r0
    ensures n / 4096 == q && n / 64 % 64 == r1 && n % 64 == r0
  {
    Digits2(n, q * 64 + r1, r0);
    Digits2(q * 64 + r1, q, r1);
  }

  lemma {:induction false} Digits4(n: int, q: int, r2: int, r1: int, r0: int)
    requires 0 <= q && 0 <= r2 < 64 && 0 <= r1 < 64 && 0 <= r0 < 64
    requires n == q * 262144 + r2 * 4096 + r1 * 64 + r0
    ensures n / 262144 == q && n / 4096 % 64 == r2 && n / 64 % 64 == r1 && n % 64 == r0
  {
    Digits3(n, q * 64 + r2, r1, r0);
    Digits2(q * 64 + r2, q, r2);
  }

  /** Every code point is the sum of its base-64 digits, as the three- and
      four-byte forms split it. */
  lemma {:induction false} SplitDigits(n: int)
    requires 0 <= n
    ensures n == n / 4096 * 4096 + n / 64 % 64 * 64 + n % 64
    ensures n == n / 262144 * 262144 + n / 4096 % 64 * 4096 + n / 64 % 64 * 64 + n % 64
  {
    var r0, m1 := n % 64, n / 64;
    var r1, m2 := m1 % 64, m1 / 64;
    var r2, q := m2 % 64, m2 / 64;
    Digits3(n, m2, r1, r0);
    Digits4(n, q, r2, r1, r0);
  }

  // ---------------------------------------------------------------------
  // The codec is a bijection between strings and well-formed UTF-8.

  /** Decoding the encoding of one character gives that character back and
      consumes exactly its bytes, whatever follows. */
  lemma {:induction false} DecodeEncodeChar(c: char, rest: seq<byte>)
    ensures DecodeChar(EncodeChar(c) + rest) == Some((c, |EncodeChar(c)|))
  {
    var n := c as int;
    if n < 0x80 {
    } else if n < 0x800 {
      DecodeEncodeTwo(c, rest);
    } else if n < 0x10000 {
      DecodeEncodeThree(c, rest);
    } else {
      DecodeEncodeFour(c, rest);
    }
  }

  lemma {:induction false} DecodeEncodeTwo(c: char, rest: seq<byte>)
    requires 0x80 <= c as int < 0x800
    ensures DecodeChar(EncodeChar(c) + rest) == Some((c, 2))
  {
    var n := c as int;
    var e := EncodeChar(c);
    Digits2(n, n / 64, n % 64);
    assert (e + rest)[0] == e[0] && (e + rest)[1] == e[1];
  }

  lemma {:induction false} DecodeEncodeThree(c: char, rest: seq<byte>)
    requires 0x800 <= c as int < 0x10000
    ensures DecodeChar(EncodeChar(c) + rest) == Some((c, 3))
  {
    var n := c as int;
    var e := EncodeChar(c);
    SplitDigits(n);
    assert (e + rest)[0] == e[0] && (e + rest)[1] == e[1] && (e + rest)[2] == e[2];
  }

  lemma {:induction false} DecodeEncodeFour(c: char, rest: seq<byte>)
    requires 0x10000 <= c as int
    ensures DecodeChar(EncodeChar(c) + rest) == Some((c, 4))
  {
    var n := c as int;
    var e := EncodeChar(c);
    SplitDigits(n);
    assert (e + rest)[0] == e[0] && (e + rest)[1] == e[1] && (e + rest)[2] == e[2] && (e + rest)[3] == e[3];
  }

  /** A character the decoder reads was encoded by exactly the bytes it read. */
  lemma {:induction false} EncodeDecodeChar(b: seq<byte>)
    requires |b| > 0 && DecodeChar(b).Some?
    ensures EncodeChar(DecodeChar(b).value.0) == b[..DecodeChar(b).value.1]
  {
    var b0 := b[0] as int;
    if b0 < 0x80 {
    } else if b0 < 0xE0 {
      var n := (b0 - 0xC0) * 64 + (b[1] as int - 0x80);
      Digits2(n, b0 - 0xC0, b[1] as int - 0x80);
    } else if b0 < 0xF0 {
      var n := (b0 - 0xE0) * 4096 + (b[1] as int - 0x80) * 64 + (b[2] as int - 0x80);
      Digits3(n, b0 - 0xE0, b[1] as int - 0x80, b[2] as int - 0x80);
    } else {
      var n := (b0 - 0xF0) * 262144 + (b[1] as int - 0x80) * 4096
               + (b[2] as int - 0x80) * 64 + (b[3] as int - 0x80);
      Digits4(n, b0 - 0xF0, b[1] as int - 0x80, b[2] as int - 0x80, b[3] as int - 0x80);
    }
  }

  /** Encoding distributes over concatenation. */
  lemma {:induction false} EncodeAppend(a: string, b: string)
    ensures Encode(a + b) == Encode(a) + Encode(b)
  {
    if a == [] {
      assert a + b == b;
    } else {
      assert (a + b)[0] == a[0] && (a + b)[1..] == a[1..] + b;
      EncodeAppend(a[1..], b);
    }
  }

  /** `decode(encode(s)) == s` for every string. */
  lemma {:induction false} DecodeEncode(s: string)
    ensures Decode(Encode(s)) == Some(s)
  {
    if s != [] {
      var e := EncodeChar(s[0]);
      DecodeEncodeChar(s[0], Encode(s[1..]));
      assert (e + Encode(s[1..]))[|e|..] == Encode(s[1..]);
      DecodeEncode(s[1..]);
      assert [s[0]] + s[1..] == s;
    }
  }

  /** `encode(decode(b)) == b` wherever decoding succeeds: the decoder
      accepts exactly the canonical encodings. */
  lemma {:induction false} EncodeDecode(b: seq<byte>)
    requires Decode(b).Some?
    ensures Encode(Decode(b).value) == b
    decreases |b|
  {
    hide DecodeChar;
    hide EncodeChar;
    if b != [] {
      var (c, k) := DecodeChar(b).value;
      EncodeDecodeChar(b);
      EncodeDecode(b[k..]);
      var s := Decode(b).value;
      assert s[0] == c && s[1..] == Decode(b[k..]).value;
      assert b == b[..k] + b[k..];
    }
  }

  /** A character's encoding is the newline byte alone for '\n' and holds
      no newline byte otherwise: every byte of a multi-byte sequence is
      at least 0x80. */
  lemma {:induction false} EncodeCharNewline(c: char)
    ensures c == '\n' ==> EncodeChar(c) == [Newline]
    ensures c != '\n' ==> NoNewline(EncodeChar(c))
  {
  }

  lemma {:induction false} NoNewlineAppend(a: seq<byte>, b: seq<byte>)
    ensures NoNewline(a + b) <==> NoNewline(a) && NoNewline(b)
  {
    if NoNewline(a) && NoNewline(b) {
      forall i | 0 <= i < |a + b|
        ensures (a + b)[i] != Newline
      {
        if i >= |a| {
          assert (a + b)[i] == b[i - |a|];
        }
      }
    }
    if NoNewline(a + b) {
      forall i | 0 <= i < |a|
        ensures a[i] != Newline
      {
        assert (a + b)[i] == a[i];
      }
      forall i | 0 <= i < |b|
        ensures b[i] != Newline
      {
        assert (a + b)[|a| + i] == b[i];
      }
    }
  }

  /** The encoding holds no newline byte exactly when the string holds no
      newline character. */
  lemma {:induction false} EncodeNewline(s: string)
    ensures NoNewline(Encode(s)) <==> OneLine(s)
  {
    if s != [] {
      EncodeNewline(s[1..]);
      EncodeCharNewline(s[0]);
      NoNewlineAppend(EncodeChar(s[0]), Encode(s[1..]));
      if OneLine(s[1..]) && s[0] != '\n' {
        forall i | 0 <= i < |s|
          ensures s[i] != '\n'
        {
          if i > 0 {
            assert s[i] == s[1..][i - 1];
          }
        }
      }
      if s[0] == '\n' {
        assert EncodeChar(s[0])[0] == Newline;
      }
    }
  }
}
