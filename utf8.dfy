/** UTF-8 as Rust's `str` stores text: encoding (`String::as_bytes`) and validating
    decoding (`std::str::from_utf8`). */
module Utf8 {
  import opened Wrappers

  /** The UTF-8 encoding of one Unicode scalar value: one to four bytes, ASCII as itself,
      every byte of a multi-byte form at or above 0x80. */
  function EncodeChar(c: char): (b: seq<Byte>)
    ensures 1 <= |b| <= 4
    ensures c as int < 0x80 ==> b == [c as int]
    ensures c as int >= 0x80 ==> forall i :: 0 <= i < |b| ==> b[i] >= 0x80
  {
    var n := c as int;
    if n < 0x80 then [n]
    else if n < 0x800 then [0xC0 + n / 0x40, 0x80 + n % 0x40]
    else if n < 0x1_0000 then [0xE0 + n / 0x1000, 0x80 + (n / 0x40) % 0x40, 0x80 + n % 0x40]
    else [0xF0 + n / 0x4_0000, 0x80 + (n / 0x1000) % 0x40, 0x80 + (n / 0x40) % 0x40, 0x80 + n % 0x40]
  }

  /** The UTF-8 encoding of a string: the encodings of its characters, one after another. */
  function Encode(s: string): (b: seq<Byte>)
  {
    Concat(seq(|s|, i requires 0 <= i < |s| => EncodeChar(s[i])))
  }

  /** The byte strings of `parts` joined in order. */
  function Concat(parts: seq<seq<Byte>>): seq<Byte>
  {
    if parts == [] then [] else parts[0] + Concat(parts[1..])
  }

  /** Encoding a string is encoding its first character, then the rest. */
  lemma EncodeCons(s: string)
    requires s != []
    ensures Encode(s) == EncodeChar(s[0]) + Encode(s[1..])
  {
    var parts := seq(|s|, i requires 0 <= i < |s| => EncodeChar(s[i]));
    assert parts[1..] == seq(|s| - 1, i requires 0 <= i < |s| - 1 => EncodeChar(s[1..][i]));
  }

  /** A continuation byte, 10xxxxxx. */
  predicate IsContinuation(b: Byte)
  {
    0x80 <= b <= 0xBF
  }

  /** The range the second byte of a three- or four-byte form must fall in, given the lead
      byte: it excludes overlong forms (after E0 and F0), surrogates (after ED) and values
      above U+10FFFF (after F4). */
  function SecondLow(lead: Byte): Byte
  {
    if lead == 0xE0 then 0xA0 else if lead == 0xF0 then 0x90 else 0x80
  }

  function SecondHigh(lead: Byte): Byte
  {
    if lead == 0xED then 0x9F else if lead == 0xF4 then 0x8F else 0xBF
  }

  /** Decodes the first scalar value of `b`, giving it with the number of bytes it took, or
      None when `b` does not start with a well-formed UTF-8 sequence. */
  function DecodeFirst(b: seq<Byte>): (r: Option<(char, nat)>)
    requires |b| > 0
    ensures r.Some? ==> 1 <= r.value.1 <= |b|
  {
    var lead: int := b[0];
    if lead < 0x80 then Some((lead as char, 1))
    else if 0xC2 <= lead <= 0xDF then
      if |b| >= 2 && IsContinuation(b[1])
      then Some((((lead - 0xC0) * 0x40 + Payload(b[1])) as char, 2))
      else None
    else if 0xE0 <= lead <= 0xEF then
      if |b| >= 3 && SecondLow(lead) <= b[1] <= SecondHigh(lead) && IsContinuation(b[2])
      then Some((((lead - 0xE0) * 0x1000 + Payload(b[1]) * 0x40 + Payload(b[2])) as char, 3))
      else None
    else if 0xF0 <= lead <= 0xF4 then
      if |b| >= 4 && SecondLow(lead) <= b[1] <= SecondHigh(lead)
         && IsContinuation(b[2]) && IsContinuation(b[3])
      then Some((((lead - 0xF0) * 0x4_0000 + Payload(b[1]) * 0x1000
                 + Payload(b[2]) * 0x40 + Payload(b[3])) as char, 4))
      else None
    else None
  }

  /** The six value bits a continuation byte carries. */
  function Payload(b: Byte): int
  {
    b - 0x80
  }

  /** `std::str::from_utf8`: the text `b` encodes, or None when `b` is not well-formed
      UTF-8. */
  function Decode(b: seq<Byte>): Option<string>
    decreases |b|
  {
    if b == [] then Some([])
    else match DecodeFirst(b)
      case None => None
      case Some((c, k)) =>
        match Decode(b[k..])
        case None => None
        case Some(s) => Some([c] + s)
  }

  /** Decoding reads back exactly the bytes one character was encoded into. */
  lemma DecodeFirstEncodeChar(c: char, rest: seq<Byte>)
    ensures DecodeFirst(EncodeChar(c) + rest) == Some((c, |EncodeChar(c)|))
  {
    var n := c as int;
    if n < 0x80 {
      assert (EncodeChar(c) + rest)[0] == n;
    } else if n < 0x800 {
      DecodeTwo(c, rest);
    } else if n < 0x1_0000 {
      DecodeThree(c, rest);
    } else {
      DecodeFour(c, rest);
    }
  }

  lemma DecodeTwo(c: char, rest: seq<Byte>)
    requires 0x80 <= c as int < 0x800
    ensures DecodeFirst(EncodeChar(c) + rest) == Some((c, 2))
  {
    var n := c as int;
    var b := EncodeChar(c) + rest;
    var hi, lo := n / 0x40, n % 0x40;
    assert b[0] == 0xC0 + hi && b[1] == 0x80 + lo;
    assert hi * 0x40 + lo == n;
  }

  lemma DecodeThree(c: char, rest: seq<Byte>)
    requires 0x800 <= c as int < 0x1_0000
    ensures DecodeFirst(EncodeChar(c) + rest) == Some((c, 3))
  {
    var n := c as int;
    var b := EncodeChar(c) + rest;
    var q := n / 0x40;
    var x, y, z := q / 0x40, q % 0x40, n % 0x40;
    assert q * 0x40 + z == n;
    assert x * 0x40 + y == q;
    assert n / 0x1000 == x;
    assert b[0] == 0xE0 + x && b[1] == 0x80 + y && b[2] == 0x80 + z;
    assert x * 0x1000 + y * 0x40 + z == n;
  }

  lemma DecodeFour(c: char, rest: seq<Byte>)
    requires 0x1_0000 <= c as int
    ensures DecodeFirst(EncodeChar(c) + rest) == Some((c, 4))
  {
    var n := c as int;
    var b := EncodeChar(c) + rest;
    var q := n / 0x40;
    var r := q / 0x40;
    var w, x, y, z := r / 0x40, r % 0x40, q % 0x40, n % 0x40;
    assert q * 0x40 + z == n;
    assert r * 0x40 + y == q;
    assert w * 0x40 + x == r;
    assert n / 0x1000 == r;
    assert n / 0x4_0000 == w;
    assert b[0] == 0xF0 + w && b[1] == 0x80 + x && b[2] == 0x80 + y && b[3] == 0x80 + z;
    assert w * 0x4_0000 + x * 0x1000 + y * 0x40 + z == n;
  }

  /** Encoding distributes over concatenation. */
  lemma {:induction false} EncodeAppend(a: string, b: string)
    ensures Encode(a + b) == Encode(a) + Encode(b)
  {
    if a != [] {
      EncodeCons(a);
      EncodeCons(a + b);
      assert (a + b)[0] == a[0];
      assert (a + b)[1..] == a[1..] + b;
      EncodeAppend(a[1..], b);
      calc {
        Encode(a + b);
        EncodeChar(a[0]) + Encode(a[1..] + b);
        EncodeChar(a[0]) + (Encode(a[1..]) + Encode(b));
        (EncodeChar(a[0]) + Encode(a[1..])) + Encode(b);
      }
    } else {
      assert a + b == b;
    }
  }

  /** Every string survives the trip through its UTF-8 bytes: `from_utf8` accepts what
      `as_bytes` produces and gives back the same text. */
  lemma {:induction false} DecodeEncode(s: string)
    ensures Decode(Encode(s)) == Some(s)
  {
    if s != [] {
      EncodeCons(s);
      var e := EncodeChar(s[0]);
      DecodeFirstEncodeChar(s[0], Encode(s[1..]));
      assert (e + Encode(s[1..]))[|e|..] == Encode(s[1..]);
      DecodeEncode(s[1..]);
      assert [s[0]] + s[1..] == s;
    }
  }

  /** An ASCII string is encoded byte for byte. */
  lemma {:induction false} EncodeAscii(s: string)
    requires forall i :: 0 <= i < |s| ==> s[i] as int < 0x80
    ensures |Encode(s)| == |s|
    ensures forall i :: 0 <= i < |s| ==> Encode(s)[i] == s[i] as int
  {
    if s != [] {
      EncodeCons(s);
      EncodeAscii(s[1..]);
    }
  }

  /** An ASCII character that does not occur in `s` leaves no byte of its value in the
      encoding of `s`: multi-byte forms use only bytes at or above 0x80. */
  lemma {:induction false} EncodeAvoids(s: string, c: char)
    requires c as int < 0x80 && c !in s
    ensures c as int !in Encode(s)
  {
    if s != [] {
      EncodeCons(s);
      EncodeAvoids(s[1..], c);
    }
  }

  /** The line break CR LF is the two bytes 13 and 10, and a space is byte 32. */
  lemma EncodeCrlfSpace()
    ensures Encode("\r\n") == [13, 10]
    ensures Encode(" ") == [32]
  {
    EncodeAscii("\r\n");
    EncodeAscii(" ");
  }
}
