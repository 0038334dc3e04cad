/** UTF-8 as RFC 3629 defines it: the encoding that `String::as_bytes` exposes and the
    validation that `std::str::from_utf8` performs (overlong forms, surrogates and
    values above U+10FFFF are rejected). Dafny's `char` is a Unicode scalar value. */
module Utf8 {
  import opened Wrappers
  import opened Machine

  predicate IsContinuation(x: uint8) { 0x80 <= x <= 0xBF }

  /** The bytes of one character, in the shortest form. */
  function EncodeChar(c: char): (b: seq<uint8>)
    ensures 1 <= |b| <= 4
  {
    var n := c as int;
    if n < 0x80 then [n]
    else if n < 0x800 then [0xC0 + n / 64, 0x80 + n % 64]
    else if n < 0x1_0000 then [0xE0 + n / 4096, 0x80 + (n / 64) % 64, 0x80 + n % 64]
    else [0xF0 + n / 262144, 0x80 + (n / 4096) % 64, 0x80 + (n / 64) % 64, 0x80 + n % 64]
  }

  /** `s.as_bytes()`. */
  function Encode(s: string): seq<uint8>
    decreases |s|
  {
    if s == [] then [] else EncodeChar(s[0]) + Encode(s[1..])
  }

  /** The character at the front of `b` and the number of bytes it takes, following
      Table 3-7 of well-formed byte sequences; `None` if the front is ill-formed. */
  function DecodeChar(b: seq<uint8>): (r: Option<(char, nat)>)
    requires |b| > 0
    ensures r.Some? ==> 1 <= r.value.1 <= |b|
  {
    var b0: int := b[0];
    if b0 < 0x80 then Some((b0 as char, 1))
    else if 0xC2 <= b0 <= 0xDF then
      if |b| < 2 || !IsContinuation(b[1]) then None
      else Some((((b0 - 0xC0) * 64 + (b[1] as int - 0x80)) as char, 2))
    else if 0xE0 <= b0 <= 0xEF then
      var lo := if b0 == 0xE0 then 0xA0 else 0x80;
      var hi := if b0 == 0xED then 0x9F else 0xBF;
      if |b| < 3 || !(lo <= b[1] <= hi) || !IsContinuation(b[2]) then None
      else Some((((b0 - 0xE0) * 4096 + (b[1] as int - 0x80) * 64 + (b[2] as int - 0x80)) as char, 3))
    else if 0xF0 <= b0 <= 0xF4 then
      var lo := if b0 == 0xF0 then 0x90 else 0x80;
      var hi := if b0 == 0xF4 then 0x8F else 0xBF;
      if |b| < 4 || !(lo <= b[1] <= hi) || !IsContinuation(b[2]) || !IsContinuation(b[3]) then None
      else Some((((b0 - 0xF0) * 262144 + (b[1] as int - 0x80) * 4096 + (b[2] as int - 0x80) * 64 + (b[3] as int - 0x80)) as char, 4))
    else None
  }

  /** `std::str::from_utf8`: the text if every byte belongs to a well-formed
      sequence, `None` otherwise. */
  function Decode(b: seq<uint8>): Option<string>
    decreases |b|
  {
    if b == [] then Some("")
    else
      var first :- DecodeChar(b);
      var rest :- Decode(b[first.1..]);
      Some([first.0] + rest)
  }

  // ----- properties -----

  /** The base-64 digits of a code point, for the multi-byte forms. */
  lemma Digits64(n: nat)
    ensures n == (n / 64) * 64 + n % 64
    ensures n / 4096 == (n / 64) / 64 && n / 64 == (n / 4096) * 64 + (n / 64) % 64
    ensures n / 262144 == (n / 4096) / 64 && n / 4096 == (n / 262144) * 64 + (n / 4096) % 64
  {
  }

  lemma DecodeEncodeTwo(c: char, rest: seq<uint8>)
    requires 0x80 <= c as int < 0x800
    ensures DecodeChar(EncodeChar(c) + rest) == Some((c, 2))
  {
    var n := c as int;
    var b := EncodeChar(c) + rest;
    Digits64(n);
    assert b[0] == 0xC0 + n / 64 && b[1] == 0x80 + n % 64;
  }

  lemma DecodeEncodeThree(c: char, rest: seq<uint8>)
    requires 0x800 <= c as int < 0x1_0000
    ensures DecodeChar(EncodeChar(c) + rest) == Some((c, 3))
  {
    var n := c as int;
    var b := EncodeChar(c) + rest;
    Digits64(n);
    assert b[0] == 0xE0 + n / 4096 && b[1] == 0x80 + (n / 64) % 64 && b[2] == 0x80 + n % 64;
    assert (n / 4096) * 4096 + ((n / 64) % 64) * 64 + n % 64 == n;
  }

  lemma DecodeEncodeFour(c: char, rest: seq<uint8>)
    requires 0x1_0000 <= c as int
    ensures DecodeChar(EncodeChar(c) + rest) == Some((c, 4))
  {
    var n := c as int;
    var b := EncodeChar(c) + rest;
    Digits64(n);
    assert b[0] == 0xF0 + n / 262144 && b[1] == 0x80 + (n / 4096) % 64;
    assert b[2] == 0x80 + (n / 64) % 64 && b[3] == 0x80 + n % 64;
    assert (n / 262144) * 262144 + ((n / 4096) % 64) * 4096 + ((n / 64) % 64) * 64 + n % 64 == n;
  }

  /** One character encoded and decoded again, whatever follows it. */
  lemma DecodeEncodeChar(c: char, rest: seq<uint8>)
    ensures DecodeChar(EncodeChar(c) + rest) == Some((c, |EncodeChar(c)|))
  {
    var n := c as int;
    if n < 0x80 {
      assert (EncodeChar(c) + rest)[0] == n;
    } else if n < 0x800 {
      DecodeEncodeTwo(c, rest);
    } else if n < 0x1_0000 {
      DecodeEncodeThree(c, rest);
    } else {
      DecodeEncodeFour(c, rest);
    }
  }

  /** Round trip: the bytes of any string are valid UTF-8 and decode to it. */
  lemma {:induction false} DecodeEncode(s: string)
    ensures Decode(Encode(s)) == Some(s)
    decreases |s|
  {
    if s != [] {
      var head := EncodeChar(s[0]);
      var b := Encode(s);
      assert b == head + Encode(s[1..]);
      DecodeEncodeChar(s[0], Encode(s[1..]));
      assert b[|head|..] == Encode(s[1..]);
      DecodeEncode(s[1..]);
      assert s == [s[0]] + s[1..];
    }
  }

  /** Splitting a number into a base-64 digit and the rest is unique. */
  lemma Split64(n: int, q: int, r: int)
    requires 0 <= r < 64 && n == q * 64 + r
    ensures n / 64 == q && n % 64 == r
  {
  }

  lemma DecodeTwoStrict(b: seq<uint8>)
    requires |b| >= 2 && 0xC2 <= b[0] <= 0xDF && IsContinuation(b[1])
    ensures var (c, n) := DecodeChar(b).value; n == 2 && b[..n] == EncodeChar(c)
  {
    var x, y := b[0] as int - 0xC0, b[1] as int - 0x80;
    var c := x * 64 + y;
    Split64(c, x, y);
    assert 0x80 <= c < 0x800;
    assert b[..2] == [b[0], b[1]];
  }

  lemma DecodeThreeStrict(b: seq<uint8>)
    requires |b| >= 3 && 0xE0 <= b[0] <= 0xEF && IsContinuation(b[2])
    requires (if b[0] == 0xE0 then 0xA0 else 0x80) <= b[1] <= (if b[0] == 0xED then 0x9F else 0xBF)
    ensures var (c, n) := DecodeChar(b).value; n == 3 && b[..n] == EncodeChar(c)
  {
    var x, y, z := b[0] as int - 0xE0, b[1] as int - 0x80, b[2] as int - 0x80;
    var c := x * 4096 + y * 64 + z;
    Split64(c, x * 64 + y, z);
    Split64(x * 64 + y, x, y);
    Digits64(c);
    assert 0x800 <= c < 0x1_0000;
    assert b[..3] == [b[0], b[1], b[2]];
  }

  lemma DecodeFourStrict(b: seq<uint8>)
    requires |b| >= 4 && 0xF0 <= b[0] <= 0xF4 && IsContinuation(b[2]) && IsContinuation(b[3])
    requires (if b[0] == 0xF0 then 0x90 else 0x80) <= b[1] <= (if b[0] == 0xF4 then 0x8F else 0xBF)
    ensures var (c, n) := DecodeChar(b).value; n == 4 && b[..n] == EncodeChar(c)
  {
    var x, y, z, w := b[0] as int - 0xF0, b[1] as int - 0x80, b[2] as int - 0x80, b[3] as int - 0x80;
    var c := x * 262144 + y * 4096 + z * 64 + w;
    Split64(c, x * 4096 + y * 64 + z, w);
    Split64(x * 4096 + y * 64 + z, x * 64 + y, z);
    Split64(x * 64 + y, x, y);
    Digits64(c);
    assert 0x1_0000 <= c;
    assert b[..4] == [b[0], b[1], b[2], b[3]];
  }

  /** The decoder accepts only shortest forms: the bytes it takes for a character are
      exactly that character's encoding. So overlong forms, surrogates and values above
      U+10FFFF are refused. */
  lemma DecodeCharStrict(b: seq<uint8>)
    requires |b| > 0 && DecodeChar(b).Some?
    ensures var (c, n) := DecodeChar(b).value; b[..n] == EncodeChar(c)
  {
    var b0 := b[0];
    if b0 < 0x80 {
      assert b[..1] == [b0];
    } else if b0 <= 0xDF {
      DecodeTwoStrict(b);
    } else if b0 <= 0xEF {
      DecodeThreeStrict(b);
    } else {
      DecodeFourStrict(b);
    }
  }

  /** The first character of an accepted nonempty sequence, the number of bytes it
      takes (exactly its encoding), and the rest, also accepted. */
  lemma DecodeFront(b: seq<uint8>) returns (c: char, n: nat)
    requires b != [] && Decode(b).Some?
    ensures 1 <= n <= |b| && Decode(b[n..]).Some?
    ensures Decode(b).value == [c] + Decode(b[n..]).value
    ensures b[..n] == EncodeChar(c)
  {
    c, n := DecodeChar(b).value.0, DecodeChar(b).value.1;
    DecodeCharStrict(b);
  }

  lemma EncodeCons(c: char, rest: string)
    ensures Encode([c] + rest) == EncodeChar(c) + Encode(rest)
  {
    assert ([c] + rest)[1..] == rest;
  }

  /** Every byte sequence the decoder accepts is the encoding of the text it returns:
      decoding is canonical. */
  lemma {:induction false} DecodeStrict(b: seq<uint8>)
    requires Decode(b).Some?
    ensures Encode(Decode(b).value) == b
    decreases |b|
  {
    if b != [] {
      var c, n := DecodeFront(b);
      DecodeStrict(b[n..]);
      EncodeCons(c, Decode(b[n..]).value);
      assert b == b[..n] + b[n..];
    }
  }

  /** A byte that is neither ASCII nor the start of a well-formed sequence, at the
      front, makes decoding fail. */
  lemma DecodeRejectsBadLead(b: seq<uint8>)
    requires |b| > 0 && (0x80 <= b[0] <= 0xC1 || b[0] >= 0xF5)
    ensures Decode(b).None?
  {
  }
}
