/**
  The bytes of a Rust `String`: its characters in UTF-8 (RFC 3629). `String::into_bytes`
  hands these bytes over unchanged, so this is what an inline input unit becomes.
 */
module Utf8 {
  import opened Wrappers
  import opened Bytes

  /** A continuation byte, `10xxxxxx`. */
  predicate IsTail(b: byte)
  {
    0x80 <= b <= 0xBF
  }

  /** The length of the sequence a lead byte opens, or 0 when it cannot open one. */
  function LeadLength(b: byte): nat
  {
    if b < 0x80 then 1
    else if 0xC2 <= b <= 0xDF then 2
    else if 0xE0 <= b <= 0xEF then 3
    else if 0xF0 <= b <= 0xF4 then 4
    else 0
  }

  /** One character's bytes, as in the UTF8-char rule of section 4 of RFC 3629. */
  predicate IsCharSequence(s: Bytes)
  {
    match |s|
    case 1 => s[0] < 0x80
    case 2 => 0xC2 <= s[0] <= 0xDF && IsTail(s[1])
    case 3 =>
      && IsTail(s[2])
      && (|| (s[0] == 0xE0 && 0xA0 <= s[1] <= 0xBF)
          || (0xE1 <= s[0] <= 0xEC && IsTail(s[1]))
          || (s[0] == 0xED && 0x80 <= s[1] <= 0x9F)
          || (0xEE <= s[0] <= 0xEF && IsTail(s[1])))
    case 4 =>
      && IsTail(s[2]) && IsTail(s[3])
      && (|| (s[0] == 0xF0 && 0x90 <= s[1] <= 0xBF)
          || (0xF1 <= s[0] <= 0xF3 && IsTail(s[1]))
          || (s[0] == 0xF4 && 0x80 <= s[1] <= 0x8F))
    case _ => false
  }

  /** A well-formed UTF-8 byte string: a concatenation of character sequences. */
  predicate WellFormed(s: Bytes)
    decreases |s|
  {
    s == [] ||
    var n := LeadLength(s[0]);
    0 < n <= |s| && IsCharSequence(s[..n]) && WellFormed(s[n..])
  }

  /** The code point a character sequence spells: the payload bits of its bytes, most significant first. */
  function CodePoint(s: Bytes): int
    requires IsCharSequence(s)
  {
    match |s|
    case 1 => s[0] as int
    case 2 => (s[0] as int - 0xC0) * 0x40 + (s[1] as int - 0x80)
    case 3 => (s[0] as int - 0xE0) * 0x1000 + (s[1] as int - 0x80) * 0x40 + (s[2] as int - 0x80)
    case 4 =>
      (s[0] as int - 0xF0) * 0x4_0000 + (s[1] as int - 0x80) * 0x1000
      + (s[2] as int - 0x80) * 0x40 + (s[3] as int - 0x80)
  }

  /** The UTF-8 bytes of one Unicode scalar value: one character sequence spelling exactly its code point. */
  function EncodeChar(c: char): (r: Bytes)
    ensures 1 <= |r| <= 4
    ensures (c as int < 0x80) <==> |r| == 1
    ensures IsCharSequence(r) && CodePoint(r) == c as int
  {
    var cp := c as int;
    // the code point in six-bit groups, least significant first
    var t0, q1 := cp % 0x40, cp / 0x40;
    var t1, q2 := q1 % 0x40, q1 / 0x40;
    var t2, q3 := q2 % 0x40, q2 / 0x40;
    assert cp == ((q3 * 0x40 + t2) * 0x40 + t1) * 0x40 + t0;
    if cp < 0x80 then
      [cp as byte]
    else if cp < 0x800 then
      [(0xC0 + q1) as byte, (0x80 + t0) as byte]
    else if cp < 0x1_0000 then
      [(0xE0 + q2) as byte, (0x80 + t1) as byte, (0x80 + t0) as byte]
    else
      [(0xF0 + q3) as byte, (0x80 + t2) as byte, (0x80 + t1) as byte, (0x80 + t0) as byte]
  }

  /** `String::into_bytes`: the characters' encodings, one after another. */
  function Encode(s: string): Bytes
  {
    if s == [] then [] else EncodeChar(s[0]) + Encode(s[1..])
  }

  /** The lead byte of every character's encoding announces the encoding's length. */
  lemma EncodeCharWellFormed(c: char)
    ensures LeadLength(EncodeChar(c)[0]) == |EncodeChar(c)|
  {
  }

  /** Encoding distributes over concatenation. */
  lemma {:induction false} EncodeAppend(s: string, t: string)
    ensures Encode(s + t) == Encode(s) + Encode(t)
  {
    if s == [] {
      assert s + t == t;
    } else {
      assert (s + t)[0] == s[0] && (s + t)[1..] == s[1..] + t;
      EncodeAppend(s[1..], t);
    }
  }

  /** Every string's bytes are well-formed UTF-8. */
  lemma {:induction false} EncodeWellFormed(s: string)
    ensures WellFormed(Encode(s))
  {
    if s != [] {
      var head := EncodeChar(s[0]);
      EncodeCharWellFormed(s[0]);
      EncodeWellFormed(s[1..]);
      var e := Encode(s);
      assert e[..|head|] == head && e[|head|..] == Encode(s[1..]);
    }
  }

  /** A string of ASCII characters is its own byte string, character for byte. */
  lemma {:induction false} EncodeAscii(s: string)
    requires forall i :: 0 <= i < |s| ==> s[i] as int < 0x80
    ensures |Encode(s)| == |s|
    ensures forall i :: 0 <= i < |s| ==> Encode(s)[i] as int == s[i] as int
  {
    if s != [] {
      EncodeAscii(s[1..]);
    }
  }

  /**
    The character a character sequence spells. The rules of the sequences
    leave out overlong forms, surrogates and values beyond U+10FFFF, so it is
    always a Unicode scalar value.
   */
  function DecodeChar(s: Bytes): (c: char)
    requires IsCharSequence(s)
    ensures c as int == CodePoint(s)
  {
    var cp := CodePoint(s);
    assert cp < 0xD800 || 0xE000 <= cp < 0x11_0000;
    cp as char
  }

  /** Reading bytes as UTF-8: the characters they spell, or `None` when they are not well-formed. */
  function Decode(b: Bytes): (r: Option<string>)
    ensures r.Some? <==> WellFormed(b)
    decreases |b|
  {
    if b == [] then Some([])
    else
      var n := LeadLength(b[0]);
      if 0 < n <= |b| && IsCharSequence(b[..n]) then
        match Decode(b[n..])
        case Some(rest) => Some([DecodeChar(b[..n])] + rest)
        case None => None
      else None
  }

  /** Decoding undoes encoding: the bytes of a string spell that string and no other. */
  lemma {:induction false} DecodeEncode(s: string)
    ensures Decode(Encode(s)) == Some(s)
  {
    if s != [] {
      var head := EncodeChar(s[0]);
      EncodeCharWellFormed(s[0]);
      DecodeEncode(s[1..]);
      var e := Encode(s);
      assert e[..|head|] == head && e[|head|..] == Encode(s[1..]);
      assert e[0] == head[0] && LeadLength(e[0]) == |head|;
      assert DecodeChar(head) == s[0];
      assert Decode(e) == Some([s[0]] + s[1..]);
      assert [s[0]] + s[1..] == s;
    }
  }

  /** Different strings have different bytes. */
  lemma EncodeInjective(s: string, t: string)
    requires Encode(s) == Encode(t)
    ensures s == t
  {
    DecodeEncode(s);
    DecodeEncode(t);
  }
}
