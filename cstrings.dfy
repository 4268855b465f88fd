/** C string conventions used throughout the shell: a character buffer holds
    a string up to its first NUL, and `atoi` reads a decimal number. */
module CStrings {

  /** The string a C buffer holds: everything before the first NUL, or the
      whole buffer when it has none (what strlen/strcpy see). */
  function CStr(s: seq<char>): (r: seq<char>)
    ensures |r| <= |s| && r == s[..|r|]
    ensures '\0' !in r
    ensures |r| < |s| ==> s[|r|] == '\0'
  {
    if s == [] || s[0] == '\0' then [] else [s[0]] + CStr(s[1..])
  }

  /** A buffer whose first NUL is at index n holds exactly its first n characters. */
  lemma CStrAt(s: seq<char>, n: nat)
    requires n < |s| && s[n] == '\0' && '\0' !in s[..n]
    ensures CStr(s) == s[..n]
  {
  }

  predicate IsDigit(c: char) { '0' <= c <= '9' }

  /** The characters isspace() accepts in the C locale. */
  predicate IsSpace(c: char) {
    c == ' ' || c == '\t' || c == '\n' || c as int == 11 || c as int == 12 || c == '\r'
  }

  /** The characters isprint() accepts in the C locale. None of them is a key
      the line editor handles itself: NUL, Enter (10), DEL (127), escape (27)
      or the Emacs control keys (1, 2, 4, 5, 6, 14, 16). */
  predicate IsPrint(c: char): (b: bool)
    ensures b ==> c as int !in {0, 1, 2, 4, 5, 6, 10, 14, 16, 27, 127}
    ensures b ==> c == ' ' || !IsSpace(c)
  {
    ' ' <= c <= '~'
  }

  function SkipSpaces(s: string): (r: string)
    ensures |r| <= |s| && r == s[|s| - |r|..]
    ensures r == [] || !IsSpace(r[0])
  {
    if s != [] && IsSpace(s[0]) then SkipSpaces(s[1..]) else s
  }

  /** The longest prefix of s made of decimal digits. */
  function DigitPrefix(s: string): (r: string)
    ensures |r| <= |s| && r == s[..|r|]
    ensures forall i :: 0 <= i < |r| ==> IsDigit(r[i])
    ensures |r| < |s| ==> !IsDigit(s[|r|])
  {
    if s != [] && IsDigit(s[0]) then [s[0]] + DigitPrefix(s[1..]) else []
  }

  /** The value of a string of decimal digits, most significant first. */
  function DigitsValue(d: string): (v: nat)
    requires forall i :: 0 <= i < |d| ==> IsDigit(d[i])
  {
    if d == [] then 0
    else
      assert IsDigit(d[|d| - 1]);
      DigitsValue(d[..|d| - 1]) * 10 + (d[|d| - 1] as int - '0' as int)
  }

  /** C atoi: leading white space, an optional sign, then decimal digits;
      anything else ends the number (integer overflow is not modelled). */
  function Atoi(s: string): (n: int)
    ensures n < 0 ==> SkipSpaces(s) != [] && SkipSpaces(s)[0] == '-'
    ensures n != 0 ==> exists k :: 0 <= k < |s| && IsDigit(s[k])
  {
    DigitInAtoi(s);
    var t := SkipSpaces(s);
    if t != [] && t[0] == '-' then -(DigitsValue(DigitPrefix(t[1..])) as int)
    else if t != [] && t[0] == '+' then DigitsValue(DigitPrefix(t[1..]))
    else DigitsValue(DigitPrefix(t))
  }

  /** A nonzero value is made of at least one digit, and the digits read by
      Atoi lie inside s. */
  lemma DigitInAtoi(s: string)
    ensures var t := SkipSpaces(s);
      var d := if t != [] && (t[0] == '-' || t[0] == '+') then DigitPrefix(t[1..]) else DigitPrefix(t);
      DigitsValue(d) != 0 ==> exists k :: 0 <= k < |s| && IsDigit(s[k])
  {
    var t := SkipSpaces(s);
    var d := if t != [] && (t[0] == '-' || t[0] == '+') then DigitPrefix(t[1..]) else DigitPrefix(t);
    if DigitsValue(d) != 0 {
      assert d != [];
      var off := if t != [] && (t[0] == '-' || t[0] == '+') then 1 else 0;
      assert d[0] == t[off];
      assert IsDigit(s[|s| - |t| + off]);
    }
  }

  /** The decimal representation of n, as printf("%d") writes it. */
  function Decimal(n: nat): (r: string)
    ensures r != [] && forall i :: 0 <= i < |r| ==> IsDigit(r[i])
  {
    if n < 10 then [('0' as int + n) as char]
    else Decimal(n / 10) + [('0' as int + n % 10) as char]
  }

  lemma {:induction false} DigitsValueOfDecimal(n: nat)
    ensures DigitsValue(Decimal(n)) == n
  {
    if n >= 10 {
      var d := Decimal(n);
      assert d[..|d| - 1] == Decimal(n / 10);
      DigitsValueOfDecimal(n / 10);
    }
  }

  /** atoi reads back every number that printf("%d") writes. */
  lemma AtoiDecimal(n: nat)
    ensures Atoi(Decimal(n)) == n
  {
    var d := Decimal(n);
    assert SkipSpaces(d) == d;
    assert DigitPrefix(d) == d;
    DigitsValueOfDecimal(n);
  }

  /** atoi yields 0 for a string that does not start (after white space)
      with a sign or a digit, e.g. an empty argument. */
  lemma AtoiNoNumber(s: string)
    requires var t := SkipSpaces(s); t == [] || (t[0] != '-' && t[0] != '+' && !IsDigit(t[0]))
    ensures Atoi(s) == 0
  {
  }

  /** strcpy(dst, src): the characters of src and a terminating NUL at the
      start of dst; the rest of dst is untouched. */
  method StrCpy(dst: array<char>, src: string)
    requires |src| < dst.Length && '\0' !in src
    modifies dst
    ensures dst[..] == src + ['\0'] + old(dst[..])[|src| + 1..]
    ensures CStr(dst[..]) == src
  {
    var i := 0;
    while i < |src|
      invariant 0 <= i <= |src|
      invariant forall j :: 0 <= j < i ==> dst[j] == src[j]
      invariant forall j :: i <= j < dst.Length ==> dst[j] == old(dst[j])
    {
      dst[i] := src[i];
      i := i + 1;
    }
    dst[i] := '\0';
    assert dst[..] == src + ['\0'] + old(dst[..])[|src| + 1..];
    assert dst[..|src|] == src;
    CStrAt(dst[..], |src|);
  }
}
