/** The "base64url" encoding of section 5 of RFC 4648 (the URL- and filename-safe
    alphabet), without '=' padding, with strict decoding: a character outside the
    alphabet, a length of 4k+1, a '=' or non-zero bits left over in the last
    character are all rejected. This is the codec behind the repository's
    `utils::base64_url` helper. */
module Base64Url {
  import opened Wrappers
  import opened Machine

  /** Table 2 of RFC 4648, section 5: the character for a 6-bit value. */
  function CharOf(v: int): (c: char)
    requires 0 <= v < 64
  {
    if v < 26 then ('A' as int + v) as char
    else if v < 52 then ('a' as int + (v - 26)) as char
    else if v < 62 then ('0' as int + (v - 52)) as char
    else if v == 62 then '-'
    else '_'
  }

  /** The 6-bit value of an alphabet character, `None` for any other character. */
  function SextetOf(c: char): (r: Option<int>)
    ensures r.Some? ==> 0 <= r.value < 64 && CharOf(r.value) == c
  {
    if 'A' <= c <= 'Z' then Some(c as int - 'A' as int)
    else if 'a' <= c <= 'z' then Some(c as int - 'a' as int + 26)
    else if '0' <= c <= '9' then Some(c as int - '0' as int + 52)
    else if c == '-' then Some(62)
    else if c == '_' then Some(63)
    else None
  }

  predicate InAlphabet(c: char) { SextetOf(c).Some? }

  lemma SextetOfCharOf(v: int)
    requires 0 <= v < 64
    ensures SextetOf(CharOf(v)) == Some(v)
  {
  }

  /** Three bytes as four characters. */
  function EncodeGroup(b0: uint8, b1: uint8, b2: uint8): (s: string)
    ensures |s| == 4
  {
    [CharOf(b0 / 4), CharOf((b0 % 4) * 16 + b1 / 16), CharOf((b1 % 16) * 4 + b2 / 64), CharOf(b2 % 64)]
  }

  /** A final single byte as two characters; the low four bits of the second are zero. */
  function EncodeTail1(b0: uint8): (s: string)
    ensures |s| == 2
  {
    [CharOf(b0 / 4), CharOf((b0 % 4) * 16)]
  }

  /** A final pair of bytes as three characters; the low two bits of the third are zero. */
  function EncodeTail2(b0: uint8, b1: uint8): (s: string)
    ensures |s| == 3
  {
    [CharOf(b0 / 4), CharOf((b0 % 4) * 16 + b1 / 16), CharOf((b1 % 16) * 4)]
  }

  /** Encoding, unpadded: four characters per three bytes, two or three for a final
      short group. */
  function Encode(b: seq<uint8>): string
    decreases |b|
  {
    if |b| == 0 then ""
    else if |b| == 1 then EncodeTail1(b[0])
    else if |b| == 2 then EncodeTail2(b[0], b[1])
    else EncodeGroup(b[0], b[1], b[2]) + Encode(b[3..])
  }

  function DecodeGroup(c0: char, c1: char, c2: char, c3: char): (r: Option<seq<uint8>>)
    ensures r.Some? ==> |r.value| == 3
  {
    var v0 :- SextetOf(c0);
    var v1 :- SextetOf(c1);
    var v2 :- SextetOf(c2);
    var v3 :- SextetOf(c3);
    Some([v0 * 4 + v1 / 16, (v1 % 16) * 16 + v2 / 4, (v2 % 4) * 64 + v3])
  }

  function DecodeTail1(c0: char, c1: char): (r: Option<seq<uint8>>)
    ensures r.Some? ==> |r.value| == 1
  {
    var v0 :- SextetOf(c0);
    var v1 :- SextetOf(c1);
    if v1 % 16 != 0 then None else Some([v0 * 4 + v1 / 16])
  }

  function DecodeTail2(c0: char, c1: char, c2: char): (r: Option<seq<uint8>>)
    ensures r.Some? ==> |r.value| == 2
  {
    var v0 :- SextetOf(c0);
    var v1 :- SextetOf(c1);
    var v2 :- SextetOf(c2);
    if v2 % 4 != 0 then None else Some([v0 * 4 + v1 / 16, (v1 % 16) * 16 + v2 / 4])
  }

  /** Strict decoding. */
  function Decode(s: string): Option<seq<uint8>>
    decreases |s|
  {
    if |s| == 0 then Some([])
    else if |s| == 1 then None
    else if |s| == 2 then DecodeTail1(s[0], s[1])
    else if |s| == 3 then DecodeTail2(s[0], s[1], s[2])
    else
      var group :- DecodeGroup(s[0], s[1], s[2], s[3]);
      var rest :- Decode(s[4..]);
      Some(group + rest)
  }

  // ----- properties -----

  /** Unpadded encoding takes ceil(4n/3) characters for n bytes. */
  lemma {:induction false} EncodeLength(b: seq<uint8>)
    ensures |Encode(b)| == (4 * |b| + 2) / 3
    decreases |b|
  {
    if |b| >= 3 {
      EncodeLength(b[3..]);
    }
  }

  /** An accepted string of m characters decodes to floor(3m/4) bytes. */
  lemma {:induction false} DecodeLength(s: string)
    requires Decode(s).Some?
    ensures |Decode(s).value| == 3 * |s| / 4
    decreases |s|
  {
    if |s| >= 4 {
      DecodeLength(s[4..]);
    }
  }

  /** Three bytes split into four 6-bit values and joined again. */
  lemma BytesToSextets(b0: uint8, b1: uint8, b2: uint8)
    ensures (b0 % 4) * 16 + b1 / 16 < 64 && (b1 % 16) * 4 + b2 / 64 < 64
    ensures ((b0 % 4) * 16 + b1 / 16) / 16 == b0 % 4
    ensures ((b0 % 4) * 16 + b1 / 16) % 16 == b1 / 16
    ensures ((b1 % 16) * 4 + b2 / 64) / 4 == b1 % 16
    ensures ((b1 % 16) * 4 + b2 / 64) % 4 == b2 / 64
  {
  }

  /** Four 6-bit values joined into three bytes and split again. */
  lemma SextetsToBytes(v0: int, v1: int, v2: int, v3: int)
    requires 0 <= v0 < 64 && 0 <= v1 < 64 && 0 <= v2 < 64 && 0 <= v3 < 64
    ensures 0 <= v0 * 4 + v1 / 16 < 256
    ensures 0 <= (v1 % 16) * 16 + v2 / 4 < 256
    ensures 0 <= (v2 % 4) * 64 + v3 < 256
    ensures (v0 * 4 + v1 / 16) / 4 == v0
    ensures (v0 * 4 + v1 / 16) % 4 == v1 / 16
    ensures ((v1 % 16) * 16 + v2 / 4) / 16 == v1 % 16
    ensures ((v1 % 16) * 16 + v2 / 4) % 16 == v2 / 4
    ensures ((v2 % 4) * 64 + v3) / 64 == v2 % 4
    ensures ((v2 % 4) * 64 + v3) % 64 == v3
  {
  }

  lemma GroupRoundTrip(b0: uint8, b1: uint8, b2: uint8)
    ensures var s := EncodeGroup(b0, b1, b2); DecodeGroup(s[0], s[1], s[2], s[3]) == Some([b0, b1, b2])
  {
    BytesToSextets(b0, b1, b2);
    SextetOfCharOf(b0 / 4); SextetOfCharOf((b0 % 4) * 16 + b1 / 16);
    SextetOfCharOf((b1 % 16) * 4 + b2 / 64); SextetOfCharOf(b2 % 64);
  }

  lemma Tail1RoundTrip(b0: uint8)
    ensures var s := EncodeTail1(b0); DecodeTail1(s[0], s[1]) == Some([b0])
  {
    BytesToSextets(b0, 0, 0);
    SextetOfCharOf(b0 / 4); SextetOfCharOf((b0 % 4) * 16);
  }

  lemma Tail2RoundTrip(b0: uint8, b1: uint8)
    ensures var s := EncodeTail2(b0, b1); DecodeTail2(s[0], s[1], s[2]) == Some([b0, b1])
  {
    BytesToSextets(b0, b1, 0);
    SextetOfCharOf(b0 / 4); SextetOfCharOf((b0 % 4) * 16 + b1 / 16); SextetOfCharOf((b1 % 16) * 4);
  }

  lemma GroupStrict(c0: char, c1: char, c2: char, c3: char)
    requires DecodeGroup(c0, c1, c2, c3).Some?
    ensures var g := DecodeGroup(c0, c1, c2, c3).value; EncodeGroup(g[0], g[1], g[2]) == [c0, c1, c2, c3]
  {
    var v0, v1, v2, v3 := SextetOf(c0).value, SextetOf(c1).value, SextetOf(c2).value, SextetOf(c3).value;
    SextetsToBytes(v0, v1, v2, v3);
    var g := DecodeGroup(c0, c1, c2, c3).value;
    assert g == [v0 * 4 + v1 / 16, (v1 % 16) * 16 + v2 / 4, (v2 % 4) * 64 + v3];
    assert g[0] / 4 == v0 && (g[0] % 4) * 16 + g[1] / 16 == v1;
    assert (g[1] % 16) * 4 + g[2] / 64 == v2 && g[2] % 64 == v3;
    assert CharOf(v0) == c0 && CharOf(v1) == c1 && CharOf(v2) == c2 && CharOf(v3) == c3;
  }

  lemma Tail1Strict(c0: char, c1: char)
    requires DecodeTail1(c0, c1).Some?
    ensures EncodeTail1(DecodeTail1(c0, c1).value[0]) == [c0, c1]
  {
    var v0, v1 := SextetOf(c0).value, SextetOf(c1).value;
    SextetsToBytes(v0, v1, 0, 0);
    var g := DecodeTail1(c0, c1).value;
    assert g == [v0 * 4 + v1 / 16];
    assert g[0] / 4 == v0 && (g[0] % 4) * 16 == v1;
  }

  lemma Tail2Strict(c0: char, c1: char, c2: char)
    requires DecodeTail2(c0, c1, c2).Some?
    ensures var g := DecodeTail2(c0, c1, c2).value; EncodeTail2(g[0], g[1]) == [c0, c1, c2]
  {
    var v0, v1, v2 := SextetOf(c0).value, SextetOf(c1).value, SextetOf(c2).value;
    SextetsToBytes(v0, v1, v2, 0);
    var g := DecodeTail2(c0, c1, c2).value;
    assert g == [v0 * 4 + v1 / 16, (v1 % 16) * 16 + v2 / 4];
    assert g[0] / 4 == v0 && (g[0] % 4) * 16 + g[1] / 16 == v1;
    assert (g[1] % 16) * 4 == v2;
  }

  /** Decoding a string of more than three characters: its first four characters,
      then the rest. */
  lemma DecodeSplit(head: string, rest: string)
    requires |head| == 4
    ensures Decode(head + rest) ==
      match DecodeGroup(head[0], head[1], head[2], head[3])
      case None => None
      case Some(g) => (match Decode(rest) case None => None case Some(r) => Some(g + r))
  {
    var s := head + rest;
    assert s[0] == head[0] && s[1] == head[1] && s[2] == head[2] && s[3] == head[3];
    assert s[4..] == rest;
  }

  /** The round trip of a final short group of one or two bytes. */
  lemma DecodeEncodeTail(b: seq<uint8>)
    requires 1 <= |b| <= 2
    ensures Decode(Encode(b)) == Some(b)
  {
    if |b| == 1 {
      var s := EncodeTail1(b[0]);
      assert Encode(b) == s;
      Tail1RoundTrip(b[0]);
      assert Decode(s) == DecodeTail1(s[0], s[1]);
      assert b == [b[0]];
    } else {
      var s := EncodeTail2(b[0], b[1]);
      assert Encode(b) == s;
      Tail2RoundTrip(b[0], b[1]);
      assert Decode(s) == DecodeTail2(s[0], s[1], s[2]);
      assert b == [b[0], b[1]];
    }
  }

  /** The round trip of a longer sequence follows from that of its tail after the
      first group. */
  lemma DecodeEncodeStep(b: seq<uint8>)
    requires |b| >= 3 && Decode(Encode(b[3..])) == Some(b[3..])
    ensures Decode(Encode(b)) == Some(b)
  {
    var head := EncodeGroup(b[0], b[1], b[2]);
    var tail := Encode(b[3..]);
    assert Encode(b) == head + tail;
    DecodeSplit(head, tail);
    GroupRoundTrip(b[0], b[1], b[2]);
    assert b == [b[0], b[1], b[2]] + b[3..];
  }

  /** Round trip: decoding an encoding gives the bytes back. */
  lemma {:induction false} DecodeEncode(b: seq<uint8>)
    ensures Decode(Encode(b)) == Some(b)
    decreases |b|
  {
    if |b| == 0 {
      assert Encode(b) == "";
    } else if |b| <= 2 {
      DecodeEncodeTail(b);
    } else {
      DecodeEncode(b[3..]);
      DecodeEncodeStep(b);
    }
  }

  /** Strictness: every string `Decode` accepts is the encoding of what it returns,
      so each byte sequence has exactly one accepted spelling. */
  lemma {:induction false} EncodeDecode(s: string)
    requires Decode(s).Some?
    ensures Encode(Decode(s).value) == s
    decreases |s|
  {
    var b := Decode(s).value;
    if |s| == 2 {
      Tail1Strict(s[0], s[1]);
    } else if |s| == 3 {
      Tail2Strict(s[0], s[1], s[2]);
    } else if |s| >= 4 {
      var group := DecodeGroup(s[0], s[1], s[2], s[3]).value;
      var rest := Decode(s[4..]).value;
      assert b == group + rest;
      GroupStrict(s[0], s[1], s[2], s[3]);
      EncodeDecode(s[4..]);
      assert b[3..] == rest && b[0] == group[0] && b[1] == group[1] && b[2] == group[2];
      assert Encode(b) == EncodeGroup(group[0], group[1], group[2]) + Encode(rest);
      assert s == s[..4] + s[4..];
    }
  }

  /** A character outside the alphabet (including '=') makes decoding fail. */
  lemma {:induction false} DecodeRejectsForeignChar(s: string, k: nat)
    requires k < |s| && !InAlphabet(s[k])
    ensures Decode(s).None?
    decreases |s|
  {
    if |s| >= 4 && k >= 4 {
      DecodeRejectsForeignChar(s[4..], k - 4);
    }
  }

  /** No encoding has a length of the form 4k+1. */
  lemma {:induction false} DecodeRejectsLength(s: string)
    requires |s| % 4 == 1
    ensures Decode(s).None?
    decreases |s|
  {
    if |s| > 4 {
      var rest := s[4..];
      assert |rest| % 4 == 1 by { assert |rest| == |s| - 4; }
      DecodeRejectsLength(rest);
    }
  }

  /** Every character of an encoding is in the alphabet. */
  lemma {:induction false} EncodeInAlphabet(b: seq<uint8>)
    ensures forall i :: 0 <= i < |Encode(b)| ==> InAlphabet(Encode(b)[i])
    decreases |b|
  {
    var s := Encode(b);
    if |s| > 0 {
      assert Decode(s).Some? by { DecodeEncode(b); }
      forall i | 0 <= i < |s| ensures InAlphabet(s[i]) {
        if !InAlphabet(s[i]) { DecodeRejectsForeignChar(s, i); }
      }
    }
  }
}
