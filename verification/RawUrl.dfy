/** Percent encoding of file names, and its decoding in place. */
module RawUrl {
  import opened Bytes

  const PERCENT: byte := 37

  /** hexchars */
  function HexDigit(n: int): (c: byte)
    requires 0 <= n < 16
  {
    if n < 10 then (48 + n) as byte else (65 + n - 10) as byte
  }

  /** isxdigit in the C locale. */
  predicate IsHex(c: byte) {
    48 <= c <= 57 || 65 <= c <= 70 || 97 <= c <= 102
  }

  /** One digit of xdebug_htoi. */
  function HexValue(c: byte): (v: int)
    requires IsHex(c)
    ensures 0 <= v < 16
  {
    var l := if 65 <= c <= 90 then c as int + 32 else c as int;
    if 48 <= l <= 57 then l - 48 else l - 97 + 10
  }

  function Htoi(c: byte, d: byte): byte
    requires IsHex(c) && IsHex(d)
  {
    (HexValue(c) * 16 + HexValue(d)) as byte
  }

  // ----- encoding

  /** The bytes that xdebug_raw_url_encode writes as %XX. */
  predicate Escaped(c: byte, skipSlash: bool) {
    || (c < 48 && c != 45 && c != 46 && (c != 47 || !skipSlash))
    || (c < 65 && c > 57 && c != 58)
    || (c > 90 && c < 97 && c != 95 && (c != 92 || !skipSlash))
    || c > 122
  }

  function EncodeByte(c: byte, skipSlash: bool): (r: bytes)
    ensures 1 <= |r| <= 3
  {
    if Escaped(c, skipSlash) then [PERCENT, HexDigit(c as int / 16), HexDigit(c as int % 16)] else [c]
  }

  function Encode(s: bytes, skipSlash: bool): bytes {
    if s == [] then [] else Encode(s[..|s| - 1], skipSlash) + EncodeByte(s[|s| - 1], skipSlash)
  }

  /** Room for every byte: the encoding is at most three times as long. */
  lemma {:induction false} EncodedLength(s: bytes, skipSlash: bool)
    ensures |s| <= |Encode(s, skipSlash)| <= 3 * |s|
  {
    if s != [] {
      EncodedLength(s[..|s| - 1], skipSlash);
    }
  }

  /** xdebug_raw_url_encode */
  method RawUrlEncode(s: bytes, skipSlash: bool) returns (str: array<byte>, newLength: nat)
    ensures fresh(str) && |s| <= newLength <= 3 * |s| < str.Length
    ensures str[..newLength] == Encode(s, skipSlash) && str[newLength] == 0
  {
    str := new byte[3 * |s| + 1];
    var y := 0;
    for x := 0 to |s|
      invariant x <= y <= 3 * x
      invariant str[..y] == Encode(s[..x], skipSlash)
    {
      ghost var done := str[..y];
      str[y] := s[x];
      ghost var y0 := y;
      if Escaped(str[y], skipSlash) {
        str[y] := PERCENT;
        y := y + 1;
        str[y] := HexDigit(s[x] as int / 16);
        y := y + 1;
        str[y] := HexDigit(s[x] as int % 16);
      }
      y := y + 1;
      assert str[..y0] == done && str[..y] == str[..y0] + str[y0..y];
      assert str[y0..y] == EncodeByte(s[x], skipSlash);
      assert s[..x + 1][..x] == s[..x];
    }
    assert s[..|s|] == s;
    EncodedLength(s, skipSlash);
    str[y] := 0;
    newLength := y;
  }

  // ----- decoding

  /** Whether s starts with an escape sequence. */
  predicate Escape(s: bytes) {
    |s| >= 3 && s[0] == PERCENT && IsHex(s[1]) && IsHex(s[2])
  }

  function Decode(s: bytes): (r: bytes)
    ensures |r| <= |s|
  {
    if s == [] then []
    else if Escape(s) then [Htoi(s[1], s[2])] + Decode(s[3..])
    else [s[0]] + Decode(s[1..])
  }

  ghost predicate Decoding(all: bytes, done: bytes, rest: bytes) {
    all == done + Decode(rest)
  }

  lemma DecodeStep(all: bytes, done: bytes, rest: bytes)
    requires Decoding(all, done, rest) && rest != []
    ensures Escape(rest) ==> Decoding(all, done + [Htoi(rest[1], rest[2])], rest[3..])
    ensures !Escape(rest) ==> Decoding(all, done + [rest[0]], rest[1..])
  {
    if Escape(rest) {
      assert done + ([Htoi(rest[1], rest[2])] + Decode(rest[3..])) == done + [Htoi(rest[1], rest[2])] + Decode(rest[3..]);
    } else {
      assert done + ([rest[0]] + Decode(rest[1..])) == done + [rest[0]] + Decode(rest[1..]);
    }
  }

  /** The bytes that are written, and those that are still to be read. */
  ghost predicate Halfway(str: array<byte>, dest: nat, data: nat, len: nat, all: bytes, done: bytes, rest: bytes)
    reads str
  {
    && dest <= data <= len < str.Length && |done| == dest && |rest| == len - data
    && (forall i | 0 <= i < |rest| :: rest[i] == str[data + i])
    && (forall i | 0 <= i < dest :: str[i] == done[i])
    && Decoding(all, done, rest)
  }

  /** One turn of the loop: one byte is written at dest. */
  method DecodeOne(str: array<byte>, dest: nat, data: nat, len: nat, ghost all: bytes, ghost done: bytes, ghost rest: bytes)
    returns (used: nat)
    requires Halfway(str, dest, data, len, all, done, rest) && data < len
    modifies str
    ensures 1 <= used <= len - data
    ensures Halfway(str, dest + 1, data + used, len, all, done + [str[dest]], rest[used..])
    ensures forall i | len < i < str.Length :: str[i] == old(str[i])
  {
    DecodeStep(all, done, rest);
    if str[data] == PERCENT && len - data - 1 >= 2 && IsHex(str[data + 1]) && IsHex(str[data + 2]) {
      assert Escape(rest);
      str[dest] := Htoi(str[data + 1], str[data + 2]);
      used := 3;
    } else {
      assert !Escape(rest);
      str[dest] := str[data];
      used := 1;
    }
  }

  /** xdebug_raw_url_decode: the write cursor never passes the read cursor, so that
      every byte is read before it is overwritten. */
  method RawUrlDecode(str: array<byte>, len: nat) returns (n: nat)
    requires len < str.Length
    modifies str
    ensures n <= len && str[..n] == Decode(old(str[..len])) && str[n] == 0
    ensures forall i | len < i < str.Length :: str[i] == old(str[i])
  {
    var dest, data := 0, 0;
    ghost var rest, done: bytes := str[..len], [];
    ghost var all := Decode(rest);
    while data < len
      invariant Halfway(str, dest, data, len, all, done, rest)
      invariant forall i | len < i < str.Length :: str[i] == old(str[i])
    {
      var used := DecodeOne(str, dest, data, len, all, done, rest);
      done, rest := done + [str[dest]], rest[used..];
      data := data + used;
      dest := dest + 1;
    }
    assert rest == [] && done + [] == done == str[..dest];
    str[dest] := 0;
    n := dest;
  }

  // ----- the round trip

  lemma HexRoundTrip(c: byte)
    ensures var h, l := HexDigit(c as int / 16), HexDigit(c as int % 16);
      IsHex(h) && IsHex(l) && Htoi(h, l) == c
  {
  }

  lemma DecodeFirst(c: byte, skipSlash: bool, rest: bytes)
    ensures Decode(EncodeByte(c, skipSlash) + rest) == [c] + Decode(rest)
  {
    HexRoundTrip(c);
    var s := EncodeByte(c, skipSlash) + rest;
    if Escaped(c, skipSlash) {
      assert s[3..] == rest;
    } else {
      assert s[1..] == rest && s[0] == c != PERCENT;
    }
  }

  /** Decoding undoes encoding, before any further input. */
  lemma {:induction false} DecodeOfEncode(s: bytes, skipSlash: bool, rest: bytes)
    ensures Decode(Encode(s, skipSlash) + rest) == s + Decode(rest)
  {
    if s == [] {
      assert Encode(s, skipSlash) + rest == rest;
    } else {
      var a, c := s[..|s| - 1], s[|s| - 1];
      var e, b, d := Encode(a, skipSlash), EncodeByte(c, skipSlash), Decode(rest);
      assert (e + b) + rest == e + (b + rest);
      DecodeOfEncode(a, skipSlash, b + rest);
      DecodeFirst(c, skipSlash, rest);
      assert a + ([c] + d) == (a + [c]) + d;
      assert a + [c] == s;
    }
  }

  lemma RoundTrip(s: bytes, skipSlash: bool)
    ensures Decode(Encode(s, skipSlash)) == s
  {
    DecodeOfEncode(s, skipSlash, []);
    assert Encode(s, skipSlash) + [] == Encode(s, skipSlash) && s + [] == s;
  }

  // ----- the digits and the alphabet, spelled out

  const LOWER := "0123456789abcdef"
  const UPPER := "0123456789ABCDEF"

  /** The digit d stands for v. */
  predicate Spells(d: byte, v: int) {
    0 <= v < 16 && (d as char == LOWER[v] || d as char == UPPER[v])
  }

  lemma HexSpells(d: byte, v: int)
    ensures Spells(d, v) <==> IsHex(d) && HexValue(d) == v
  {
  }

  /** s starts with the byte c, escaped with digits of either case. */
  predicate Spelled(s: bytes, c: byte) {
    |s| >= 3 && s[0] == PERCENT && Spells(s[1], c as int / 16) && Spells(s[2], c as int % 16)
  }

  /** Decoding every string: a byte spelled by two digits, of whatever case, is that byte, and
      what spells no byte stands for itself. */
  lemma DecodeSpelled(s: bytes)
    requires s != []
    ensures forall c | Spelled(s, c) :: Decode(s) == [c] + Decode(s[3..])
    ensures (forall c :: !Spelled(s, c)) ==> Decode(s) == [s[0]] + Decode(s[1..])
  {
    forall c | Spelled(s, c)
      ensures Escape(s) && Htoi(s[1], s[2]) == c
    {
      HexSpells(s[1], c as int / 16);
      HexSpells(s[2], c as int % 16);
    }
    if Escape(s) {
      var h, l := HexValue(s[1]), HexValue(s[2]);
      var c := Htoi(s[1], s[2]);
      HexSpells(s[1], h);
      HexSpells(s[2], l);
      assert c as int / 16 == h && c as int % 16 == l;
      assert Spelled(s, c);
    }
  }

  /** The bytes that are written as they are. */
  predicate Unescaped(c: byte, skipSlash: bool) {
    var ch := c as char;
    || '0' <= ch <= '9' || 'A' <= ch <= 'Z' || 'a' <= ch <= 'z'
    || ch == '-' || ch == '.' || ch == ':' || ch == '_'
    || (skipSlash && (ch == '/' || ch == '\\'))
  }

  /** Every other byte is written with two capital digits. */
  lemma EncodedByte(c: byte, skipSlash: bool)
    ensures Encode([c], skipSlash) ==
      if Unescaped(c, skipSlash) then [c]
      else [37, UPPER[c as int / 16] as byte, UPPER[c as int % 16] as byte]
  {
    assert [c][..0] == [];
    assert Encode([c], skipSlash) == [] + EncodeByte(c, skipSlash);
  }

  /** An encoded name has only percent signs and bytes that need no escape; with skipSlash
      off it has no slash. */
  lemma {:induction false} EncodedAlphabet(s: bytes, skipSlash: bool)
    ensures forall b | b in Encode(s, skipSlash) :: b == 37 || Unescaped(b, skipSlash)
  {
    if s != [] {
      EncodedAlphabet(s[..|s| - 1], skipSlash);
    }
  }
}
