/** UTF-8 as the String adapter checks it: the well-formed byte sequences of
    section 3.9 of the Unicode Standard (Table 3-7), the decoder that turns
    them into Unicode scalar values, and the encoder a Rust `String` keeps its
    characters in. */
module Utf8 {
  import opened Wire

  /** A continuation byte: 10xxxxxx. */
  predicate Cont(b: byte)
  {
    0x80 <= b < 0xC0
  }

  /** The UTF-8 form of one scalar value: one byte below U+0080, two below
      U+0800, three below U+10000, four above. */
  function EncodeChar(c: char): (r: seq<byte>)
    ensures 1 <= |r| <= 4
  {
    var n := c as int;
    if n < 0x80 then [n]
    else if n < 0x800 then [0xC0 + n / 0x40, 0x80 + n % 0x40]
    else if n < 0x1_0000 then [0xE0 + n / 0x1000, 0x80 + n / 0x40 % 0x40, 0x80 + n % 0x40]
    else [0xF0 + n / 0x4_0000, 0x80 + n / 0x1000 % 0x40, 0x80 + n / 0x40 % 0x40, 0x80 + n % 0x40]
  }

  /** The bytes of a string, character after character. */
  function EncodeUtf8(s: string): seq<byte>
  {
    if s == [] then [] else EncodeChar(s[0]) + EncodeUtf8(s[1..])
  }

  /** Reads the one well-formed sequence at the head of `b` (Table 3-7):
      the scalar value and the number of bytes, or None for an ill-formed
      head. */
  function DecodeChar(b: seq<byte>): (r: Option<(char, nat)>)
    requires b != []
    ensures r.Some? ==> 1 <= r.value.1 <= 4 && r.value.1 <= |b|
  {
    var b0: int := b[0];
    if b0 < 0x80 then Some((b0 as char, 1))
    else if 0xC2 <= b0 <= 0xDF then
      if |b| >= 2 && Cont(b[1]) then Some((Two(b0, b[1]) as char, 2))
      else None
    else if 0xE0 <= b0 <= 0xEF then
      var lo := if b0 == 0xE0 then 0xA0 else 0x80;
      var hi := if b0 == 0xED then 0x9F else 0xBF;
      if |b| >= 3 && lo <= b[1] <= hi && Cont(b[2]) then Some((Three(b0, b[1], b[2]) as char, 3))
      else None
    else if 0xF0 <= b0 <= 0xF4 then
      var lo := if b0 == 0xF0 then 0x90 else 0x80;
      var hi := if b0 == 0xF4 then 0x8F else 0xBF;
      if |b| >= 4 && lo <= b[1] <= hi && Cont(b[2]) && Cont(b[3]) then Some((Four(b0, b[1], b[2], b[3]) as char, 4))
      else None
    else None
  }

  /** The scalar value carried by a two-, three- or four-byte sequence: the
      payload bits of the lead byte followed by six bits per continuation
      byte. */
  function Two(b0: int, b1: int): int
  {
    (b0 - 0xC0) * 0x40 + (b1 - 0x80)
  }

  function Three(b0: int, b1: int, b2: int): int
  {
    (b0 - 0xE0) * 0x1000 + (b1 - 0x80) * 0x40 + (b2 - 0x80)
  }

  function Four(b0: int, b1: int, b2: int, b3: int): int
  {
    (b0 - 0xF0) * 0x4_0000 + (b1 - 0x80) * 0x1000 + (b2 - 0x80) * 0x40 + (b3 - 0x80)
  }

  /** std::str::from_utf8: the characters of `b`, or None when some part of
      it is not a well-formed sequence. */
  function DecodeUtf8(b: seq<byte>): (r: Option<string>)
    decreases |b|
  {
    if b == [] then Some([])
    else match DecodeChar(b)
      case None => None
      case Some((c, n)) =>
        match DecodeUtf8(b[n..])
        case None => None
        case Some(s) => Some([c] + s)
  }

  predicate ValidUtf8(b: seq<byte>)
  {
    DecodeUtf8(b).Some?
  }

  // ---------------------------------------------------------------------
  // Encoding and decoding are inverse

  lemma SplitTwo(n: nat)
    requires 0x80 <= n < 0x800
    ensures 0xC2 <= 0xC0 + n / 0x40 <= 0xDF
    ensures (n / 0x40) * 0x40 + n % 0x40 == n
  {
  }

  lemma SplitThree(n: nat)
    requires 0x800 <= n < 0x1_0000
    ensures 0xE0 <= 0xE0 + n / 0x1000 <= 0xEF
    ensures n / 0x1000 == 0 ==> 0x20 <= n / 0x40 % 0x40
    ensures (n / 0x1000) * 0x1000 + (n / 0x40 % 0x40) * 0x40 + n % 0x40 == n
  {
  }

  lemma SplitFour(n: nat)
    requires 0x1_0000 <= n < 0x11_0000
    ensures n / 0x4_0000 <= 4
    ensures n / 0x4_0000 == 0 ==> 0x10 <= n / 0x1000 % 0x40
    ensures n / 0x4_0000 == 4 ==> n / 0x1000 % 0x40 < 0x10
    ensures (n / 0x4_0000) * 0x4_0000 + (n / 0x1000 % 0x40) * 0x1000 + (n / 0x40 % 0x40) * 0x40 + n % 0x40 == n
  {
  }

  /** The bytes written for a character decode to that character, whatever
      follows them. */
  lemma DecodeEncodedChar(c: char, rest: seq<byte>)
    ensures DecodeChar(EncodeChar(c) + rest) == Some((c, |EncodeChar(c)|))
  {
    var n := c as int;
    var b := EncodeChar(c) + rest;
    if n < 0x80 {
    } else if n < 0x800 {
      SplitTwo(n);
    } else if n < 0x1_0000 {
      SplitThree(n);
      assert n / 0x1000 == 0xD ==> n / 0x40 % 0x40 < 0x20;
    } else {
      SplitFour(n);
    }
  }

  /** A well-formed head is the encoding of the character it decodes to. */
  lemma EncodeDecodedChar(b: seq<byte>)
    requires b != [] && DecodeChar(b).Some?
    ensures EncodeChar(DecodeChar(b).value.0) == b[..DecodeChar(b).value.1]
  {
    var n := DecodeChar(b).value.1;
    if n == 2 {
      JoinTwo(b[0], b[1]);
    } else if n == 3 {
      JoinThree(b[0], b[1], b[2]);
    } else if n == 4 {
      JoinFour(b[0], b[1], b[2], b[3]);
    }
  }

  lemma JoinTwo(b0: byte, b1: byte)
    requires 0xC2 <= b0 <= 0xDF && Cont(b1)
    ensures 0x80 <= Two(b0, b1) < 0x800
    ensures EncodeChar(Two(b0, b1) as char) == [b0, b1]
  {
  }

  lemma JoinThree(b0: byte, b1: byte, b2: byte)
    requires 0xE0 <= b0 <= 0xEF && Cont(b1) && Cont(b2)
    requires b0 == 0xE0 ==> b1 >= 0xA0
    requires b0 == 0xED ==> b1 <= 0x9F
    ensures 0x800 <= Three(b0, b1, b2) < 0x1_0000 && !(0xD800 <= Three(b0, b1, b2) < 0xE000)
    ensures EncodeChar(Three(b0, b1, b2) as char) == [b0, b1, b2]
  {
    var a, b, c := b0 - 0xE0, b1 - 0x80, b2 - 0x80;
    var n := Three(b0, b1, b2);
    assert n == a * 0x1000 + (b * 0x40 + c);
    DivMod(a, b * 0x40 + c, 0x1000);
    assert n == (a * 0x40 + b) * 0x40 + c;
    DivMod(a * 0x40 + b, c, 0x40);
    DivMod(a, b, 0x40);
    assert n / 0x1000 == a && n / 0x40 % 0x40 == b && n % 0x40 == c;
  }

  lemma JoinFour(b0: byte, b1: byte, b2: byte, b3: byte)
    requires 0xF0 <= b0 <= 0xF4 && Cont(b1) && Cont(b2) && Cont(b3)
    requires b0 == 0xF0 ==> b1 >= 0x90
    requires b0 == 0xF4 ==> b1 <= 0x8F
    ensures 0x1_0000 <= Four(b0, b1, b2, b3) < 0x11_0000
    ensures EncodeChar(Four(b0, b1, b2, b3) as char) == [b0, b1, b2, b3]
  {
    var a, b, c, d := b0 - 0xF0, b1 - 0x80, b2 - 0x80, b3 - 0x80;
    var n := Four(b0, b1, b2, b3);
    assert n == a * 0x4_0000 + (b * 0x1000 + c * 0x40 + d);
    DivMod(a, b * 0x1000 + c * 0x40 + d, 0x4_0000);
    assert n == (a * 0x40 + b) * 0x1000 + (c * 0x40 + d);
    DivMod(a * 0x40 + b, c * 0x40 + d, 0x1000);
    DivMod(a, b, 0x40);
    assert n == ((a * 0x40 + b) * 0x40 + c) * 0x40 + d;
    DivMod((a * 0x40 + b) * 0x40 + c, d, 0x40);
    DivMod(a * 0x40 + b, c, 0x40);
    assert n / 0x4_0000 == a && n / 0x1000 % 0x40 == b && n / 0x40 % 0x40 == c && n % 0x40 == d;
  }

  /** Splitting a number into a quotient and a remainder of six, twelve or
      eighteen bits. */
  lemma DivMod(q: nat, r: nat, k: nat)
    requires k == 0x40 || k == 0x1000 || k == 0x4_0000
    requires 0 <= r < k
    ensures (q * k + r) / k == q && (q * k + r) % k == r
  {
    if k == 0x40 {
      assert q * k + r == q * 0x40 + r;
    } else if k == 0x1000 {
      assert q * k + r == q * 0x1000 + r;
    } else {
      assert q * k + r == q * 0x4_0000 + r;
    }
  }

  /** Decoding the encoding of a string gives the string back. */
  lemma {:induction false} Utf8RoundTrip(s: string)
    ensures DecodeUtf8(EncodeUtf8(s)) == Some(s)
  {
    if s != [] {
      var tail := EncodeUtf8(s[1..]);
      DecodeEncodedChar(s[0], tail);
      assert (EncodeChar(s[0]) + tail)[|EncodeChar(s[0])|..] == tail;
      Utf8RoundTrip(s[1..]);
      assert [s[0]] + s[1..] == s;
    }
  }

  /** Every valid byte sequence is the encoding of what it decodes to; so
      well-formed UTF-8 and strings are in one-to-one correspondence. */
  lemma {:induction false} Utf8Canonical(b: seq<byte>)
    requires ValidUtf8(b)
    ensures EncodeUtf8(DecodeUtf8(b).value) == b
    decreases |b|
  {
    if b != [] {
      var c, n := DecodeChar(b).value.0, DecodeChar(b).value.1;
      var t := DecodeUtf8(b[n..]).value;
      assert DecodeUtf8(b) == Some([c] + t);
      EncodeDecodedChar(b);
      Utf8Canonical(b[n..]);
      assert ([c] + t)[0] == c && ([c] + t)[1..] == t;
      assert EncodeUtf8([c] + t) == EncodeChar(c) + EncodeUtf8(t);
      assert b == b[..n] + b[n..];
    }
  }

  /** Every string's encoding is valid UTF-8. */
  lemma EncodedIsValid(s: string)
    ensures ValidUtf8(EncodeUtf8(s))
  {
    Utf8RoundTrip(s);
  }

  /** A character takes at most four bytes. */
  lemma {:induction false} EncodedLength(s: string)
    ensures |EncodeUtf8(s)| <= 4 * |s|
  {
    if s != [] {
      EncodedLength(s[1..]);
    }
  }
}
