/** UTF-8, as strings are stored on disk: an encoder, and the strict decoder that rejects everything else. */
module Utf8 {
  import opened Wrappers

  function EncodeChar(c: char): (r: Bytes)
    ensures 1 <= |r| <= 4
  {
    var v := c as int;
    if v < 0x80 then [v]
    else if v < 0x800 then [0xC0 + v / 64, 0x80 + v % 64]
    else if v < 0x10000 then [0xE0 + v / 64 / 64, 0x80 + v / 64 % 64, 0x80 + v % 64]
    else [0xF0 + v / 64 / 64 / 64, 0x80 + v / 64 / 64 % 64, 0x80 + v / 64 % 64, 0x80 + v % 64]
  }

  function Encode(s: string): Bytes {
    if s == "" then [] else EncodeChar(s[0]) + Encode(s[1..])
  }

  predicate IsTail(b: Byte) {
    0x80 <= b < 0xC0
  }

  /** A value that is a character, needs exactly this many bytes and is no surrogate. */
  predicate IsScalar(v: int, lo: int, hi: int) {
    lo <= v < hi && !(0xD800 <= v < 0xE000)
  }

  /** Append six bits. */
  function Shift(high: int, tail: int): int {
    high * 64 + tail
  }

  lemma ShiftDigits(high: int, tail: int)
    requires 0 <= tail < 64
    ensures Shift(high, tail) / 64 == high && Shift(high, tail) % 64 == tail
  {
  }

  /** The first character of `b` and the number of bytes it takes. */
  function DecodeChar(b: Bytes): (r: Option<(char, nat)>)
    ensures r.Some? ==> 1 <= r.value.1 <= |b|
  {
    if b == [] then None
    else if b[0] < 0x80 then Some((b[0] as char, 1))
    else if 0xC0 <= b[0] < 0xE0 && |b| >= 2 && IsTail(b[1]) then
      var v := Shift(b[0] - 0xC0, b[1] - 0x80);
      if IsScalar(v, 0x80, 0x800) then Some((v as char, 2)) else None
    else if 0xE0 <= b[0] < 0xF0 && |b| >= 3 && IsTail(b[1]) && IsTail(b[2]) then
      var v := Shift(Shift(b[0] - 0xE0, b[1] - 0x80), b[2] - 0x80);
      if IsScalar(v, 0x800, 0x10000) then Some((v as char, 3)) else None
    else if 0xF0 <= b[0] < 0xF8 && |b| >= 4 && IsTail(b[1]) && IsTail(b[2]) && IsTail(b[3]) then
      var v := Shift(Shift(Shift(b[0] - 0xF0, b[1] - 0x80), b[2] - 0x80), b[3] - 0x80);
      if IsScalar(v, 0x10000, 0x110000) then Some((v as char, 4)) else None
    else None
  }

  function Decode(b: Bytes): Option<string> {
    if b == [] then Some("")
    else
      var first := DecodeChar(b);
      if first.None? then None
      else
        var rest := Decode(b[first.value.1..]);
        if rest.None? then None else Some([first.value.0] + rest.value)
  }

  lemma DecodeCharUndoesEncodeChar(c: char, rest: Bytes)
    ensures DecodeChar(EncodeChar(c) + rest) == Some((c, |EncodeChar(c)|))
  {
    var v := c as int;
    var b := EncodeChar(c) + rest;
    assert forall k :: 0 <= k < |EncodeChar(c)| ==> b[k] == EncodeChar(c)[k];
    assert v == Shift(v / 64, v % 64);
    assert v / 64 == Shift(v / 64 / 64, v / 64 % 64);
    assert v / 64 / 64 == Shift(v / 64 / 64 / 64, v / 64 / 64 % 64);
  }

  lemma TwoByteChar(b: Bytes)
    requires DecodeChar(b).Some? && DecodeChar(b).value.1 == 2
    ensures EncodeChar(DecodeChar(b).value.0) == b[..2]
  {
    ShiftDigits(b[0] - 0xC0, b[1] - 0x80);
  }

  lemma ThreeByteChar(b: Bytes)
    requires DecodeChar(b).Some? && DecodeChar(b).value.1 == 3
    ensures EncodeChar(DecodeChar(b).value.0) == b[..3]
  {
    ShiftDigits(b[0] - 0xE0, b[1] - 0x80);
    ShiftDigits(Shift(b[0] - 0xE0, b[1] - 0x80), b[2] - 0x80);
  }

  lemma FourByteChar(b: Bytes)
    requires DecodeChar(b).Some? && DecodeChar(b).value.1 == 4
    ensures EncodeChar(DecodeChar(b).value.0) == b[..4]
  {
    var t := Shift(b[0] - 0xF0, b[1] - 0x80);
    ShiftDigits(b[0] - 0xF0, b[1] - 0x80);
    ShiftDigits(t, b[2] - 0x80);
    ShiftDigits(Shift(t, b[2] - 0x80), b[3] - 0x80);
  }

  lemma EncodeCharUndoesDecodeChar(b: Bytes)
    requires DecodeChar(b).Some?
    ensures EncodeChar(DecodeChar(b).value.0) == b[..DecodeChar(b).value.1]
  {
    var n := DecodeChar(b).value.1;
    if n == 2 {
      TwoByteChar(b);
    } else if n == 3 {
      ThreeByteChar(b);
    } else if n == 4 {
      FourByteChar(b);
    }
  }

  lemma DecodeFirst(c: char, rest: Bytes)
    ensures Decode(EncodeChar(c) + rest) == if Decode(rest).None? then None else Some([c] + Decode(rest).value)
  {
    DecodeCharUndoesEncodeChar(c, rest);
    assert (EncodeChar(c) + rest)[|EncodeChar(c)|..] == rest;
  }

  lemma {:induction false} DecodeUndoesEncode(s: string)
    ensures Decode(Encode(s)) == Some(s)
  {
    if s != "" {
      DecodeFirst(s[0], Encode(s[1..]));
      DecodeUndoesEncode(s[1..]);
      assert s == [s[0]] + s[1..];
    }
  }

  /** The decoder accepts exactly the encodings, and returns what they encode. */
  lemma {:induction false} DecodesExactly(b: Bytes, s: string)
    ensures Decode(b) == Some(s) <==> b == Encode(s)
    decreases |b|
  {
    DecodeUndoesEncode(s);
    if Decode(b) == Some(s) && b != [] {
      var (c, n) := DecodeChar(b).value;
      var rest := Decode(b[n..]).value;
      EncodeCharUndoesDecodeChar(b);
      DecodesExactly(b[n..], rest);
      assert s == [c] + rest && s[1..] == rest;
      assert b == b[..n] + b[n..];
    }
  }

  /** One to four bytes by the size of the character, its bits six to a byte, as in section 3 of RFC 3629. */
  lemma CharMeaning(c: char)
    ensures var v, r := c as int, EncodeChar(c);
            && (v < 0x80 ==> r == [v])
            && (0x80 <= v < 0x800 ==>
                  |r| == 2 && 0xC0 <= r[0] && IsTail(r[1]) && v == (r[0] as int - 0xC0) * 64 + (r[1] as int - 0x80))
            && (0x800 <= v < 0x10000 ==>
                  && |r| == 3 && 0xE0 <= r[0] && IsTail(r[1]) && IsTail(r[2])
                  && v == (r[0] as int - 0xE0) * 4096 + (r[1] as int - 0x80) * 64 + (r[2] as int - 0x80))
            && (0x10000 <= v ==>
                  && |r| == 4 && 0xF0 <= r[0] && IsTail(r[1]) && IsTail(r[2]) && IsTail(r[3])
                  && v == (r[0] as int - 0xF0) * 262144 + (r[1] as int - 0x80) * 4096 +
                          (r[2] as int - 0x80) * 64 + (r[3] as int - 0x80))
  {
  }

  /** Texts are encoded character by character. */
  lemma {:induction false} EncodeConcat(s: string, t: string)
    ensures Encode(s + t) == Encode(s) + Encode(t)
  {
    if s == "" {
      assert s + t == t;
    } else {
      assert (s + t)[1..] == s[1..] + t;
      EncodeConcat(s[1..], t);
    }
  }
}
