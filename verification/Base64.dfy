/** Base64 with the standard alphabet and mandatory padding (section 4 of RFC 4648). */
module Base64 {
  import opened Wrappers

  type Sextet = x: int | 0 <= x < 64

  function Symbol(v: Sextet): char {
    if v < 26 then ('A' as int + v) as char
    else if v < 52 then ('a' as int + (v - 26)) as char
    else if v < 62 then ('0' as int + (v - 52)) as char
    else if v == 62 then '+'
    else '/'
  }

  function Value(c: char): Option<Sextet> {
    if 'A' <= c <= 'Z' then Some(c as int - 'A' as int)
    else if 'a' <= c <= 'z' then Some(c as int - 'a' as int + 26)
    else if '0' <= c <= '9' then Some(c as int - '0' as int + 52)
    else if c == '+' then Some(62)
    else if c == '/' then Some(63)
    else None
  }

  lemma SymbolValue(v: Sextet)
    ensures Value(Symbol(v)) == Some(v)
  {
  }

  lemma ValueSymbol(c: char)
    requires Value(c).Some?
    ensures Symbol(Value(c).value) == c
  {
  }

  /** One to three bytes as four characters. */
  function EncodeGroup(b: Bytes): (r: string)
    requires 1 <= |b| <= 3
    ensures |r| == 4
  {
    if |b| == 3 then
      [Symbol(b[0] / 4), Symbol(b[0] % 4 * 16 + b[1] / 16), Symbol(b[1] % 16 * 4 + b[2] / 64), Symbol(b[2] % 64)]
    else if |b| == 2 then
      [Symbol(b[0] / 4), Symbol(b[0] % 4 * 16 + b[1] / 16), Symbol(b[1] % 16 * 4), '=']
    else
      [Symbol(b[0] / 4), Symbol(b[0] % 4 * 16), '=', '=']
  }

  function Encode(b: Bytes): string {
    if b == [] then ""
    else if |b| <= 3 then EncodeGroup(b)
    else EncodeGroup(b[..3]) + Encode(b[3..])
  }

  /** Four characters without padding. */
  function DecodeFull(g: string): Option<Bytes>
    requires |g| == 4
  {
    var a, b, c, d := Value(g[0]), Value(g[1]), Value(g[2]), Value(g[3]);
    if a.Some? && b.Some? && c.Some? && d.Some?
    then Some([a.value * 4 + b.value / 16, b.value % 16 * 16 + c.value / 4, c.value % 4 * 64 + d.value])
    else None
  }

  /** The last four characters: padding is allowed here, and the bits it leaves over must be zero. */
  function DecodeLast(g: string): Option<Bytes>
    requires |g| == 4
  {
    var a, b, c := Value(g[0]), Value(g[1]), Value(g[2]);
    if g[3] != '=' then DecodeFull(g)
    else if a.None? || b.None? then None
    else if g[2] == '=' then
      if b.value % 16 == 0 then Some([a.value * 4 + b.value / 16]) else None
    else if c.Some? && c.value % 4 == 0 then
      Some([a.value * 4 + b.value / 16, b.value % 16 * 16 + c.value / 4])
    else None
  }

  function Decode(s: string): Option<Bytes> {
    if s == "" then Some([])
    else if |s| < 4 then None
    else if |s| == 4 then DecodeLast(s)
    else
      var first, rest := DecodeFull(s[..4]), Decode(s[4..]);
      if first.Some? && rest.Some? then Some(first.value + rest.value) else None
  }

  lemma Ungroup(x: Byte, y: Byte, z: Byte)
    ensures x / 4 * 4 + (x % 4 * 16 + y / 16) / 16 == x
    ensures (x % 4 * 16 + y / 16) % 16 * 16 + (y % 16 * 4 + z / 64) / 4 == y
    ensures (y % 16 * 4 + z / 64) % 4 * 64 + z % 64 == z
  {
  }

  lemma FullGroupRoundTrip(b: Bytes)
    requires |b| == 3
    ensures DecodeLast(EncodeGroup(b)) == DecodeFull(EncodeGroup(b)) == Some(b)
  {
    var x: int, y: int, z: int := b[0], b[1], b[2];
    SymbolValue(x / 4);
    SymbolValue(x % 4 * 16 + y / 16);
    SymbolValue(y % 16 * 4 + z / 64);
    SymbolValue(z % 64);
    Ungroup(x, y, z);
    assert Symbol(z % 64) != '=';
    assert b == [x, y, z];
  }

  lemma ShortGroupRoundTrip(b: Bytes)
    requires 1 <= |b| <= 2
    ensures DecodeLast(EncodeGroup(b)) == Some(b)
  {
    var x: int, y: int := b[0], if |b| == 2 then b[1] else 0;
    SymbolValue(x / 4);
    SymbolValue(x % 4 * 16 + y / 16);
    SymbolValue(y % 16 * 4);
    Ungroup(x, y, 0);
    assert b == if |b| == 2 then [x, y] else [x];
  }

  lemma GroupRoundTrip(b: Bytes)
    requires 1 <= |b| <= 3
    ensures DecodeLast(EncodeGroup(b)) == Some(b)
    ensures |b| == 3 ==> DecodeFull(EncodeGroup(b)) == Some(b)
  {
    if |b| == 3 {
      FullGroupRoundTrip(b);
    } else {
      ShortGroupRoundTrip(b);
    }
  }

  lemma Regroup(a: Sextet, b: Sextet, c: Sextet, d: Sextet)
    ensures (a * 4 + b / 16) / 4 == a
    ensures (a * 4 + b / 16) % 4 * 16 + (b % 16 * 16 + c / 4) / 16 == b
    ensures (b % 16 * 16 + c / 4) % 16 * 4 + (c % 4 * 64 + d) / 64 == c
    ensures (c % 4 * 64 + d) % 64 == d
  {
  }

  lemma EncodeSextets(a: Sextet, b: Sextet, c: Sextet, d: Sextet)
    ensures EncodeGroup([a * 4 + b / 16, b % 16 * 16 + c / 4, c % 4 * 64 + d]) ==
            [Symbol(a), Symbol(b), Symbol(c), Symbol(d)]
  {
    Regroup(a, b, c, d);
  }

  lemma FullGroupIsCanonical(g: string)
    requires |g| == 4 && DecodeFull(g).Some?
    ensures |DecodeFull(g).value| == 3 && EncodeGroup(DecodeFull(g).value) == g
  {
    var a, b, c, d := Value(g[0]).value, Value(g[1]).value, Value(g[2]).value, Value(g[3]).value;
    ValueSymbol(g[0]);
    ValueSymbol(g[1]);
    ValueSymbol(g[2]);
    ValueSymbol(g[3]);
    EncodeSextets(a, b, c, d);
    assert g == [Symbol(a), Symbol(b), Symbol(c), Symbol(d)];
  }

  lemma LastGroupIsCanonical(g: string)
    requires |g| == 4 && DecodeLast(g).Some?
    ensures 1 <= |DecodeLast(g).value| <= 3 && EncodeGroup(DecodeLast(g).value) == g
  {
    if g[3] != '=' {
      FullGroupIsCanonical(g);
    } else {
      ValueSymbol(g[0]);
      ValueSymbol(g[1]);
      var c := if g[2] == '=' then 0 else Value(g[2]).value;
      if g[2] != '=' {
        ValueSymbol(g[2]);
      }
      Regroup(Value(g[0]).value, Value(g[1]).value, c, 0);
    }
  }

  /** Decoding undoes encoding, for every sequence of bytes. */
  lemma {:induction false} DecodeUndoesEncode(b: Bytes)
    ensures Decode(Encode(b)) == Some(b)
  {
    if b == [] {
    } else if |b| <= 3 {
      GroupRoundTrip(b);
    } else {
      GroupRoundTrip(b[..3]);
      DecodeUndoesEncode(b[3..]);
      var s := Encode(b);
      assert s[..4] == EncodeGroup(b[..3]) && s[4..] == Encode(b[3..]);
      EncodeNonEmpty(b[3..]);
      assert b == b[..3] + b[3..];
    }
  }

  lemma EncodeNonEmpty(b: Bytes)
    ensures |Encode(b)| % 4 == 0 && (b != [] ==> |Encode(b)| >= 4)
  {
  }

  /** The decoder accepts no text but the encoding of what it returns. */
  lemma {:induction false} DecodesExactly(s: string, b: Bytes)
    ensures Decode(s) == Some(b) <==> s == Encode(b)
    decreases |s|
  {
    DecodeUndoesEncode(b);
    if Decode(s) == Some(b) && s != "" {
      if |s| == 4 {
        LastGroupIsCanonical(s);
      } else {
        var first, rest := DecodeFull(s[..4]).value, Decode(s[4..]).value;
        FullGroupIsCanonical(s[..4]);
        DecodesExactly(s[4..], rest);
        assert rest != [] by { DecodedNonEmpty(s[4..]); }
        assert b[..3] == first && b[3..] == rest;
        assert s == s[..4] + s[4..];
      }
    }
  }

  lemma DecodedNonEmpty(s: string)
    requires Decode(s).Some? && s != ""
    ensures Decode(s).value != []
  {
  }

  /** Encoded text holds only characters of the alphabet and padding. */
  lemma {:induction false} EncodeAlphabet(b: Bytes)
    ensures forall c :: c in Encode(b) ==> Value(c).Some? || c == '='
  {
    if |b| > 3 {
      EncodeAlphabet(b[3..]);
      GroupAlphabet(b[..3]);
    } else if b != [] {
      GroupAlphabet(b);
    }
  }

  lemma GroupAlphabet(b: Bytes)
    requires 1 <= |b| <= 3
    ensures forall c :: c in EncodeGroup(b) ==> Value(c).Some? || c == '='
  {
    GroupRoundTrip(b);
  }

  // ---------------------------------------------------------------------------------------------
  // The encoding as the standard words it
  // ---------------------------------------------------------------------------------------------

  const UPPER := "ABCDEFGHIJKLMNOPQRSTUVWXYZ"
  const LOWER := "abcdefghijklmnopqrstuvwxyz"
  const DIGITS := "0123456789"

  /** The table of the standard: upper case, lower case, digits, plus and slash. */
  function Table(): (t: string)
    ensures |t| == 64
  {
    UPPER + LOWER + DIGITS + "+/"
  }

  lemma UpperAt(k: nat)
    requires k < 26
    ensures UPPER[k] as int == 65 + k && LOWER[k] as int == 97 + k
  {
  }

  lemma DigitAt(k: nat)
    requires k < 10
    ensures DIGITS[k] as int == 48 + k
  {
  }

  lemma SymbolInTable(v: Sextet)
    ensures Symbol(v) == Table()[v]
  {
    if v < 26 {
      UpperAt(v);
    } else if v < 52 {
      UpperAt(v - 26);
    } else if v < 62 {
      DigitAt(v - 52);
    }
  }

  /** The characters stand for these four numbers of six bits. */
  ghost predicate Spells(g: string, a: Sextet, b: Sextet, c: Sextet, d: Sextet) {
    g == [Table()[a], Table()[b], Table()[c], Table()[d]]
  }

  /** Three bytes, read as one number of 24 bits, are the four characters of its digits to the base of 64. */
  lemma GroupMeaning(b: Bytes) returns (p: Sextet, q: Sextet, r: Sextet, s: Sextet)
    requires |b| == 3
    ensures Spells(EncodeGroup(b), p, q, r, s)
    ensures p * 262144 + q * 4096 + r * 64 + s == b[0] as int * 65536 + b[1] as int * 256 + b[2] as int
  {
    var x: int, y: int, z: int := b[0], b[1], b[2];
    p, q, r, s := x / 4, x % 4 * 16 + y / 16, y % 16 * 4 + z / 64, z % 64;
    SymbolInTable(p);
    SymbolInTable(q);
    SymbolInTable(r);
    SymbolInTable(s);
  }

  /** A last group of one or two bytes is filled up with zeros, and their characters are replaced by padding. */
  lemma ShortGroupMeaning(b: Bytes)
    requires 1 <= |b| <= 2
    ensures |b| == 2 ==> EncodeGroup(b) == EncodeGroup(b + [0])[..3] + "="
    ensures |b| == 1 ==> EncodeGroup(b) == EncodeGroup(b + [0, 0])[..2] + "=="
  {
  }

  /** Groups are encoded one after the other. */
  lemma GroupByGroup(b: Bytes, rest: Bytes)
    requires 1 <= |b| <= 3 && (rest != [] ==> |b| == 3)
    ensures Encode(b + rest) == EncodeGroup(b) + Encode(rest) && Encode([]) == ""
  {
    if rest == [] {
      assert b + rest == b;
      assert EncodeGroup(b) + "" == EncodeGroup(b);
    } else {
      assert (b + rest)[..3] == b && (b + rest)[3..] == rest;
    }
  }
}
