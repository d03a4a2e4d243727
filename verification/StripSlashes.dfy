/** xdebug_stripcslashes: C escape sequences, undone in place. */
module StripSlashes {
  import opened Bytes
  import RawUrl

  const BACKSLASH: byte := 92

  predicate IsOctal(c: byte) {
    48 <= c <= 55
  }

  /** How many octal digits s starts with, up to k. */
  function OctalRun(s: bytes, k: nat): (n: nat)
    ensures n <= |s| && n <= k
    ensures forall i | 0 <= i < n :: IsOctal(s[i])
  {
    if k == 0 || s == [] || !IsOctal(s[0]) then 0 else 1 + OctalRun(s[1..], k - 1)
  }

  function OctalValue(s: bytes): nat
    requires forall i | 0 <= i < |s| :: IsOctal(s[i])
  {
    if s == [] then 0
    else
      assert IsOctal(s[|s| - 1]);
      8 * OctalValue(s[..|s| - 1]) + (s[|s| - 1] as int - 48)
  }

  /** What an escape stands for, and how many bytes it takes behind the backslash. */
  datatype Escape = Escape(value: byte, used: nat)

  function OtherEscape(s: bytes): (e: Escape)
    requires s != []
    ensures 1 <= e.used <= |s|
  {
    var n := OctalRun(s, 3);
    if n > 0 then Escape((OctalValue(s[..n]) % 256) as byte, n) else Escape(s[0], 1)
  }

  function EscapeOf(s: bytes): (e: Escape)
    requires s != []
    ensures 1 <= e.used <= |s|
  {
    match s[0]
    case 110 => Escape(10, 1)
    case 114 => Escape(13, 1)
    case 97 => Escape(7, 1)
    case 116 => Escape(9, 1)
    case 118 => Escape(11, 1)
    case 98 => Escape(8, 1)
    case 102 => Escape(12, 1)
    case 92 => Escape(92, 1)
    case 120 =>
      if |s| > 1 && RawUrl.IsHex(s[1]) then
        if |s| > 2 && RawUrl.IsHex(s[2]) then Escape(RawUrl.Htoi(s[1], s[2]), 3)
        else Escape(RawUrl.HexValue(s[1]) as byte, 2)
      else OtherEscape(s)
    case _ => OtherEscape(s)
  }

  /** The first byte of the result, and how many bytes it takes. */
  function First(s: bytes): (e: Escape)
    requires s != []
    ensures 1 <= e.used <= |s|
  {
    if s[0] == BACKSLASH && |s| > 1 then
      var e := EscapeOf(s[1..]);
      Escape(e.value, 1 + e.used)
    else Escape(s[0], 1)
  }

  /** The string without its escapes; a backslash at the end stays. */
  function Strip(s: bytes): (r: bytes)
    ensures |r| <= |s|
    decreases |s|
  {
    if s == [] then [] else [First(s).value] + Strip(s[First(s).used..])
  }

  ghost predicate Stripping(all: bytes, done: bytes, rest: bytes) {
    all == done + Strip(rest)
  }

  lemma StripStep(all: bytes, done: bytes, rest: bytes)
    requires Stripping(all, done, rest) && rest != []
    ensures Stripping(all, done + [First(rest).value], rest[First(rest).used..])
  {
    var e := First(rest);
    assert done + ([e.value] + Strip(rest[e.used..])) == done + [e.value] + Strip(rest[e.used..]);
  }

  /** The octal loop, from the position behind the backslash. */
  method ReadOctal(str: array<byte>, source: nat, end: nat) returns (digits: bytes)
    requires source < end <= str.Length
    ensures digits == str[source..end][..OctalRun(str[source..end], 3)]
  {
    ghost var s := str[source..end];
    var i, p := 0, source;
    digits := [];
    while p < end && IsOctal(str[p]) && i < 3
      invariant i <= 3 && p == source + i <= end && digits == s[..i]
      invariant OctalRun(s, 3) == i + OctalRun(s[i..], 3 - i)
    {
      assert s[i] == str[p] && s[i..][1..] == s[i + 1..];
      digits := digits + [str[p]];
      i, p := i + 1, p + 1;
    }
    assert p < end ==> s[i..][0] == str[p];
  }

  /** The switch of the loop: the byte that an escape stands for, and its length. */
  method ReadEscape(str: array<byte>, source: nat, end: nat) returns (value: byte, used: nat)
    requires source < end <= str.Length
    ensures Escape(value, used) == EscapeOf(str[source..end])
  {
    ghost var s := str[source..end];
    var c := str[source];
    assert c == s[0];
    used := 1;
    if c == 110 { value := 10; }
    else if c == 114 { value := 13; }
    else if c == 97 { value := 7; }
    else if c == 116 { value := 9; }
    else if c == 118 { value := 11; }
    else if c == 98 { value := 8; }
    else if c == 102 { value := 12; }
    else if c == 92 { value := 92; }
    else if c == 120 && source + 1 < end && RawUrl.IsHex(str[source + 1]) {
      assert s[1] == str[source + 1];
      if source + 2 < end && RawUrl.IsHex(str[source + 2]) {
        assert s[2] == str[source + 2];
        value, used := RawUrl.Htoi(str[source + 1], str[source + 2]), 3;
      } else {
        assert |s| > 2 ==> s[2] == str[source + 2];
        value, used := RawUrl.HexValue(str[source + 1]) as byte, 2;
      }
    } else {
      assert |s| > 1 ==> s[1] == str[source + 1];
      var digits := ReadOctal(str, source, end);
      if digits != [] {
        value, used := (OctalValue(digits) % 256) as byte, |digits|;
      } else {
        value := c;
      }
    }
  }

  /** The bytes that are written, and those that are still to be read. */
  ghost predicate Halfway(str: array<byte>, target: nat, source: nat, len: nat, all: bytes, done: bytes, rest: bytes)
    reads str
  {
    && target <= source <= len < str.Length && |done| == target && |rest| == len - source
    && (forall i | 0 <= i < |rest| :: rest[i] == str[source + i])
    && (forall i | 0 <= i < target :: str[i] == done[i])
    && Stripping(all, done, rest)
  }

  /** One turn of the loop: one byte is written at target. */
  method StripOne(str: array<byte>, target: nat, source: nat, len: nat, ghost all: bytes, ghost done: bytes, ghost rest: bytes)
    returns (used: nat)
    requires Halfway(str, target, source, len, all, done, rest) && source < len
    modifies str
    ensures 1 <= used <= len - source
    ensures Halfway(str, target + 1, source + used, len, all, done + [str[target]], rest[used..])
  {
    assert str[source..len] == rest;
    StripStep(all, done, rest);
    ghost var e := First(rest);
    if str[source] == BACKSLASH && source + 1 < len {
      assert str[source + 1..len] == rest[1..];
      var value, more := ReadEscape(str, source + 1, len);
      str[target] := value;
      used := 1 + more;
    } else {
      str[target] := str[source];
      used := 1;
    }
    assert str[target] == e.value && used == e.used;
  }

  /** xdebug_stripcslashes: the length that it reports is that of what it wrote. */
  method StripCSlashes(str: array<byte>, len: nat) returns (nlen: nat)
    requires len < str.Length
    modifies str
    ensures nlen <= len && str[..nlen] == Strip(old(str[..len]))
    ensures nlen != 0 ==> str[nlen] == 0
  {
    var source, target := 0, 0;
    nlen := len;
    ghost var rest, done: bytes := str[..len], [];
    ghost var all := Strip(rest);
    while source < len
      invariant Halfway(str, target, source, len, all, done, rest) && nlen == target + (len - source)
    {
      var used := StripOne(str, target, source, len, all, done, rest);
      done, rest := done + [str[target]], rest[used..];
      nlen := nlen - (used - 1);
      target := target + 1;
      source := source + used;
    }
    assert rest == [] && done + [] == done == str[..target];
    if nlen != 0 {
      str[target] := 0;
    }
  }

  // ----- the escapes, spelled out

  /** The letters that stand for a byte behind a backslash, and the bytes. */
  const LETTERS := "nratvbf\\"
  const CONTROLS := "\n\r\U{7}\t\U{b}\U{8}\U{c}\\"

  predicate IsLetter(b: byte) {
    exists i | 0 <= i < |LETTERS| :: b as char == LETTERS[i]
  }

  predicate HexDigit(b: byte) {
    exists v | 0 <= v < 16 :: RawUrl.Spells(b, v)
  }

  /** The digit d is an octal digit of value v. */
  predicate OctalSpells(d: byte, v: int) {
    0 <= v < 8 && d as char == "01234567"[v]
  }

  predicate OctalDigit(b: byte) {
    exists v | 0 <= v < 8 :: OctalSpells(b, v)
  }

  /** How a byte can be spelled: as itself, by a letter, by one or two hexadecimal digits of
      either case, by one to three octal digits, or as itself behind a backslash. */
  datatype Spelling =
    | Plainly
    | Letter(i: nat)
    | Hex1(v: int)
    | Hex2(u: int, v: int)
    | Octal1(v: int)
    | Octal2(u: int, v: int)
    | Octal3(t: int, u: int, v: int)
    | Escaped

  /** s starts with this spelling of c, which takes n bytes. */
  predicate SpelledBy(s: bytes, how: Spelling, c: byte, n: nat) {
    && 0 < n <= |s|
    && (how != Plainly ==> |s| > 1 && s[0] == 92)
    && match how
       case Plainly => n == 1 && c == s[0] && (s[0] == 92 ==> |s| == 1)
       case Letter(i) => n == 2 && i < |LETTERS| && s[1] as char == LETTERS[i] && c as char == CONTROLS[i]
       case Hex1(v) =>
         n == 3 && s[1] as char == 'x' && RawUrl.Spells(s[2], v) && c as int == v && (|s| > 3 ==> !HexDigit(s[3]))
       case Hex2(u, v) =>
         n == 4 && s[1] as char == 'x' && RawUrl.Spells(s[2], u) && RawUrl.Spells(s[3], v) && c as int == 16 * u + v
       case Octal1(v) =>
         n == 2 && OctalSpells(s[1], v) && c as int == v && (|s| > 2 ==> !OctalDigit(s[2]))
       case Octal2(u, v) =>
         n == 3 && OctalSpells(s[1], u) && OctalSpells(s[2], v) && c as int == 8 * u + v && (|s| > 3 ==> !OctalDigit(s[3]))
       case Octal3(t, u, v) =>
         n == 4 && OctalSpells(s[1], t) && OctalSpells(s[2], u) && OctalSpells(s[3], v) &&
         c as int == (64 * t + 8 * u + v) % 256
       case Escaped =>
         n == 2 && c == s[1] && !IsLetter(s[1]) && !OctalDigit(s[1]) &&
         (s[1] as char == 'x' && |s| > 2 ==> !HexDigit(s[2]))
  }

  lemma OctalIsDigit(b: byte)
    ensures OctalDigit(b) <==> IsOctal(b)
    ensures forall v | OctalSpells(b, v) :: v == b as int - 48
  {
    if IsOctal(b) {
      assert OctalSpells(b, b as int - 48);
    }
  }

  lemma HexIsDigit(b: byte)
    ensures HexDigit(b) <==> RawUrl.IsHex(b)
    ensures forall v | RawUrl.Spells(b, v) :: RawUrl.IsHex(b) && v == RawUrl.HexValue(b)
  {
    forall v: int
      ensures RawUrl.Spells(b, v) <==> RawUrl.IsHex(b) && RawUrl.HexValue(b) == v
    {
      RawUrl.HexSpells(b, v);
    }
    if RawUrl.IsHex(b) {
      assert RawUrl.Spells(b, RawUrl.HexValue(b));
    }
  }

  lemma OctalRuns(s: bytes)
    ensures OctalRun(s, 3) ==
      if s == [] || !IsOctal(s[0]) then 0
      else if |s| == 1 || !IsOctal(s[1]) then 1
      else if |s| == 2 || !IsOctal(s[2]) then 2
      else 3
  {
    assert OctalRun(s, 3) == if s == [] || !IsOctal(s[0]) then 0 else 1 + OctalRun(s[1..], 2);
    if |s| > 1 {
      assert OctalRun(s[1..], 2) == if !IsOctal(s[1..][0]) then 0 else 1 + OctalRun(s[1..][1..], 1);
      if |s| > 2 {
        assert s[1..][1..][0] == s[2];
        assert OctalRun(s[1..][1..], 1) == if !IsOctal(s[2]) then 0 else 1 + OctalRun(s[1..][1..][1..], 0);
      }
    }
  }

  lemma OctalValues(s: bytes)
    requires 0 < |s| <= 3 && forall i | 0 <= i < |s| :: IsOctal(s[i])
    ensures |s| == 1 ==> OctalValue(s) == s[0] as int - 48
    ensures |s| == 2 ==> OctalValue(s) == 8 * (s[0] as int - 48) + (s[1] as int - 48)
    ensures |s| == 3 ==> OctalValue(s) == 64 * (s[0] as int - 48) + 8 * (s[1] as int - 48) + (s[2] as int - 48)
  {
    var t := s[..|s| - 1];
    assert t != [] ==> OctalValue(t[..0]) == 0;
    if |s| > 1 {
      OctalValues(t);
    }
  }

  /** The digits among the bytes behind the backslash. */
  lemma DigitsBehind(s: bytes, k: nat)
    requires k <= |s|
    ensures forall i | 0 <= i < k :: (OctalDigit(s[i]) <==> IsOctal(s[i])) && (HexDigit(s[i]) <==> RawUrl.IsHex(s[i]))
    ensures forall i, v | 0 <= i < k && OctalSpells(s[i], v) :: v == s[i] as int - 48
    ensures forall i, v | 0 <= i < k && RawUrl.Spells(s[i], v) :: RawUrl.IsHex(s[i]) && v == RawUrl.HexValue(s[i])
  {
    if k > 0 {
      DigitsBehind(s, k - 1);
      OctalIsDigit(s[k - 1]);
      HexIsDigit(s[k - 1]);
    }
  }

  lemma LetterEscapes(i: nat, s: bytes)
    requires i < |LETTERS| && s != [] && s[0] as char == LETTERS[i]
    ensures EscapeOf(s).used == 1 && EscapeOf(s).value as char == CONTROLS[i]
  {
    assert |LETTERS| == 8 && |CONTROLS| == 8;
  }

  lemma NoLetterEscapes(s: bytes)
    requires s != [] && !IsLetter(s[0])
    ensures EscapeOf(s) ==
      if s[0] == 120 && |s| > 1 && RawUrl.IsHex(s[1]) then
        if |s| > 2 && RawUrl.IsHex(s[2]) then Escape(RawUrl.Htoi(s[1], s[2]), 3)
        else Escape(RawUrl.HexValue(s[1]) as byte, 2)
      else OtherEscape(s)
  {
    assert LETTERS[0] == 'n' && LETTERS[1] == 'r' && LETTERS[2] == 'a' && LETTERS[3] == 't';
    assert LETTERS[4] == 'v' && LETTERS[5] == 'b' && LETTERS[6] == 'f' && LETTERS[7] == '\\';
  }

  /** What an escape without a letter stands for, from the octal digits it starts with. */
  lemma OctalEscapes(t: bytes)
    requires t != [] && (t[0] == 120 ==> |t| == 1 || !RawUrl.IsHex(t[1])) && !IsLetter(t[0])
    ensures !IsOctal(t[0]) ==> EscapeOf(t) == Escape(t[0], 1)
    ensures IsOctal(t[0]) && (|t| == 1 || !IsOctal(t[1])) ==> EscapeOf(t) == Escape((t[0] as int - 48) as byte, 1)
    ensures |t| > 1 && IsOctal(t[0]) && IsOctal(t[1]) && (|t| == 2 || !IsOctal(t[2])) ==>
      EscapeOf(t) == Escape((8 * (t[0] as int - 48) + (t[1] as int - 48)) as byte, 2)
    ensures |t| > 2 && IsOctal(t[0]) && IsOctal(t[1]) && IsOctal(t[2]) ==>
      EscapeOf(t) == Escape(((64 * (t[0] as int - 48) + 8 * (t[1] as int - 48) + (t[2] as int - 48)) % 256) as byte, 3)
  {
    NoLetterEscapes(t);
    OctalRuns(t);
    var k := OctalRun(t, 3);
    if k > 0 {
      OctalValues(t[..k]);
    }
  }

  lemma HexFirst(s: bytes, how: Spelling, c: byte, n: nat)
    requires SpelledBy(s, how, c, n) && (how.Hex1? || how.Hex2?)
    ensures First(s) == Escape(c, n)
  {
    DigitsBehind(s, if |s| < 4 then |s| else 4);
    NoLetterEscapes(s[1..]);
  }

  lemma OctalFirst(s: bytes, how: Spelling, c: byte, n: nat)
    requires SpelledBy(s, how, c, n) && (how.Octal1? || how.Octal2? || how.Octal3? || how.Escaped?)
    ensures First(s) == Escape(c, n)
  {
    DigitsBehind(s, if |s| < 4 then |s| else 4);
    OctalEscapes(s[1..]);
  }

  /** Whatever spells a byte is that byte for the parser. */
  lemma SpelledFirst(s: bytes, how: Spelling, c: byte, n: nat)
    requires SpelledBy(s, how, c, n)
    ensures First(s) == Escape(c, n)
  {
    if how.Letter? {
      LetterEscapes(how.i, s[1..]);
    } else if how.Hex1? || how.Hex2? {
      HexFirst(s, how, c, n);
    } else if how != Plainly {
      OctalFirst(s, how, c, n);
    }
  }

  /** Undoing the escapes: the first byte is the one that is spelled, the rest follows. */
  lemma StripSpelled(s: bytes, how: Spelling, c: byte, n: nat)
    requires SpelledBy(s, how, c, n)
    ensures Strip(s) == [c] + Strip(s[n..])
  {
    SpelledFirst(s, how, c, n);
  }

  /** And every string starts with a byte spelled in one of these ways. */
  lemma SomeSpelling(s: bytes) returns (how: Spelling, c: byte, n: nat)
    requires s != []
    ensures SpelledBy(s, how, c, n)
  {
    if s[0] != 92 || |s| == 1 {
      return Plainly, s[0], 1;
    }
    DigitsBehind(s, if |s| < 4 then |s| else 4);
    if IsLetter(s[1]) {
      var i :| 0 <= i < |LETTERS| && s[1] as char == LETTERS[i];
      how, c, n := Letter(i), CONTROLS[i] as byte, 2;
    } else if s[1] as char == 'x' && |s| > 2 && HexDigit(s[2]) {
      var u :| 0 <= u < 16 && RawUrl.Spells(s[2], u);
      if |s| > 3 && HexDigit(s[3]) {
        var v :| 0 <= v < 16 && RawUrl.Spells(s[3], v);
        how, c, n := Hex2(u, v), (16 * u + v) as byte, 4;
      } else {
        how, c, n := Hex1(u), u as byte, 3;
      }
    } else if OctalDigit(s[1]) {
      var t :| 0 <= t < 8 && OctalSpells(s[1], t);
      if |s| == 2 || !OctalDigit(s[2]) {
        return Octal1(t), t as byte, 2;
      }
      var u :| 0 <= u < 8 && OctalSpells(s[2], u);
      if |s| == 3 || !OctalDigit(s[3]) {
        return Octal2(t, u), (8 * t + u) as byte, 3;
      }
      var v :| 0 <= v < 8 && OctalSpells(s[3], v);
      how, c, n := Octal3(t, u, v), ((64 * t + 8 * u + v) % 256) as byte, 4;
    } else {
      how, c, n := Escaped, s[1], 2;
    }
  }

  /** s spells the bytes cs, one after the other. */
  ghost predicate SpellsOut(s: bytes, cs: bytes)
    decreases |s|
  {
    if s == [] then cs == []
    else cs != [] && exists how, n: nat :: SpelledBy(s, how, cs[0], n) && SpellsOut(s[n..], cs[1..])
  }

  lemma {:induction false} StripSpells(s: bytes)
    ensures SpellsOut(s, Strip(s))
    decreases |s|
  {
    if s != [] {
      var how, c, n := SomeSpelling(s);
      StripSpelled(s, how, c, n);
      StripSpells(s[n..]);
      assert Strip(s)[0] == c && Strip(s)[1..] == Strip(s[n..]);
    }
  }

  lemma {:induction false} SpellsStrip(s: bytes, cs: bytes)
    requires SpellsOut(s, cs)
    ensures cs == Strip(s)
    decreases |s|
  {
    if s != [] {
      var how, n: nat :| SpelledBy(s, how, cs[0], n) && SpellsOut(s[n..], cs[1..]);
      StripSpelled(s, how, cs[0], n);
      SpellsStrip(s[n..], cs[1..]);
    }
  }

  /** Undoing the escapes of a string gives the bytes that it spells, and no others. */
  lemma StripIsSpelled(s: bytes, cs: bytes)
    ensures cs == Strip(s) <==> SpellsOut(s, cs)
  {
    StripSpells(s);
    if SpellsOut(s, cs) {
      SpellsStrip(s, cs);
    }
  }
}
