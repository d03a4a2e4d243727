/** The C string functions that the extension uses on its line buffer. */
module CStrings {
  import opened Collections
  import opened Decimal

  const NUL := '\0'

  /** The C string that starts at position p of the buffer. */
  function CStr(buf: string, p: nat): (s: string)
    requires p <= |buf|
  {
    buf[p..][..IndexOf(buf[p..], NUL)]
  }

  /** strchr, as a position in the buffer. */
  function StrChr(buf: string, p: nat, c: char): (q: int)
    requires p <= |buf|
    ensures q == -1 || p <= q < |buf|
  {
    var s := CStr(buf, p);
    if IndexOf(s, c) < |s| then p + IndexOf(s, c) else -1
  }

  /** isspace in the C locale. */
  predicate IsSpace(c: char) {
    c in {' ', '\t', '\n', '\r', 11 as char, 12 as char}
  }

  function SkipSpace(s: string): (r: string)
    ensures |r| <= |s|
    ensures r != [] ==> !IsSpace(r[0])
  {
    if s != [] && IsSpace(s[0]) then SkipSpace(s[1..]) else s
  }

  function LeadingDigits(s: string): (d: string)
    ensures d <= s
    ensures forall i | 0 <= i < |d| :: IsDigit(d[i])
    ensures |d| < |s| ==> !IsDigit(s[|d|])
  {
    if s == [] || !IsDigit(s[0]) then [] else [s[0]] + LeadingDigits(s[1..])
  }

  /** atoi, without the overflow. */
  function Atoi(s: string): int {
    var t := SkipSpace(s);
    if t != [] && t[0] == '-' then 0 - Value(LeadingDigits(t[1..]))
    else if t != [] && t[0] == '+' then Value(LeadingDigits(t[1..]))
    else Value(LeadingDigits(t))
  }

  /** %d */
  function PrintInt(n: int): (s: string)
    ensures s != []
    ensures forall i | 0 <= i < |s| :: IsDigit(s[i]) || s[i] == '-'
  {
    if n < 0 then "-" + Digits(-n) else Digits(n)
  }

  lemma {:induction false} LeadingDigitsOf(d: string, rest: string)
    requires forall i | 0 <= i < |d| :: IsDigit(d[i])
    requires rest == [] || !IsDigit(rest[0])
    ensures LeadingDigits(d + rest) == d
  {
    if d == [] {
      assert d + rest == rest;
    } else {
      assert (d + rest)[1..] == d[1..] + rest;
      LeadingDigitsOf(d[1..], rest);
    }
  }

  lemma SignlessStart(s: string)
    requires s != [] && (IsDigit(s[0]) || s[0] == '-')
    ensures SkipSpace(s) == s
  {
  }

  lemma AtoiOfDigits(n: nat, rest: string)
    requires rest == [] || !IsDigit(rest[0])
    ensures Atoi(Digits(n) + rest) == n
  {
    LeadingDigitsOf(Digits(n), rest);
    ValueOfDigits(n);
    assert (Digits(n) + rest)[0] == Digits(n)[0];
    SignlessStart(Digits(n) + rest);
  }

  lemma AtoiOfNegative(n: nat, rest: string)
    requires rest == [] || !IsDigit(rest[0])
    ensures Atoi("-" + Digits(n) + rest) == 0 - n
  {
    LeadingDigitsOf(Digits(n), rest);
    ValueOfDigits(n);
    var s := "-" + Digits(n) + rest;
    assert s[1..] == Digits(n) + rest;
    SignlessStart(s);
  }

  /** atoi undoes %d, whatever follows that is not a digit. */
  lemma AtoiOfPrintInt(n: int, rest: string)
    requires rest == [] || !IsDigit(rest[0])
    ensures Atoi(PrintInt(n) + rest) == n
  {
    if n < 0 {
      AtoiOfNegative(-n, rest);
    } else {
      AtoiOfDigits(n, rest);
    }
  }

  // ----- atoi on every string

  predicate Blank(c: char) {
    c == ' ' || c == '\t' || c == '\n' || c == '\U{b}' || c == '\U{c}' || c == '\r'
  }

  /** atoi skips blanks, takes one sign, and reads digits as far as they go. */
  lemma {:induction false} AtoiReads(blanks: string, sign: string, ds: string, rest: string)
    requires forall i | 0 <= i < |blanks| :: Blank(blanks[i])
    requires sign in {"", "+", "-"} && forall i | 0 <= i < |ds| :: IsDigit(ds[i])
    requires rest != "" ==> !IsDigit(rest[0])
    requires sign == "" && ds == "" && rest != "" ==> !Blank(rest[0]) && rest[0] != '+' && rest[0] != '-'
    ensures Atoi(blanks + (sign + (ds + rest))) == if sign == "-" then 0 - Value(ds) else Value(ds)
    decreases |blanks|
  {
    var t := sign + (ds + rest);
    if blanks == "" {
      assert blanks + t == t;
      AtoiSigned(sign, ds, rest);
    } else {
      assert (blanks + t)[1..] == blanks[1..] + t;
      AtoiReads(blanks[1..], sign, ds, rest);
    }
  }

  lemma AtoiSigned(sign: string, ds: string, rest: string)
    requires sign in {"", "+", "-"} && forall i | 0 <= i < |ds| :: IsDigit(ds[i])
    requires rest != "" ==> !IsDigit(rest[0])
    requires sign == "" && ds == "" && rest != "" ==> !Blank(rest[0]) && rest[0] != '+' && rest[0] != '-'
    ensures Atoi(sign + (ds + rest)) == if sign == "-" then 0 - Value(ds) else Value(ds)
  {
    LeadingDigitsOf(ds, rest);
    if sign == "" {
      AtoiUnsigned(ds + rest);
      assert sign + (ds + rest) == ds + rest;
    } else {
      AtoiBehindSign(sign[0], ds + rest);
      assert sign == [sign[0]];
    }
  }

  lemma AtoiUnsigned(s: string)
    requires s != "" ==> !Blank(s[0]) && s[0] != '+' && s[0] != '-'
    ensures Atoi(s) == Value(LeadingDigits(s))
  {
  }

  lemma AtoiBehindSign(sign: char, s: string)
    requires sign == '+' || sign == '-'
    ensures Atoi([sign] + s) == if sign == '-' then 0 - Value(LeadingDigits(s)) else Value(LeadingDigits(s))
  {
    var t := [sign] + s;
    assert t[1..] == s && SkipSpace(t) == t;
  }
}
