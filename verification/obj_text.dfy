/**
  The C string scanning objloader.cpp builds on: strspn, strcspn, atoi and
  the token helpers parseSep, parseSepOpt, isSep and getFilePath. A token is
  the rest of a line; reading past its end yields the NUL terminator.
*/
module ObjText {
  import opened Wrappers

  const NUL: char := '\0'

  /** token[i]: the character, or the terminator past the end. */
  function At(t: string, i: nat): char {
    if i < |t| then t[i] else NUL
  }

  /** The characters parseSep and parseSepOpt skip (objloader.cpp:156, 186). */
  const Blanks: set<char> := {' ', '\t'}

  /** isspace in the C locale, which atoi skips. */
  const Spaces: set<char> := {' ', '\t', '\n', '\U{B}', '\U{C}', '\r'}

  /** strspn: the length of the longest prefix made of accepted characters. */
  function Span(t: string, accept: set<char>): (r: nat)
    ensures r <= |t|
    ensures forall i :: 0 <= i < r ==> t[i] in accept
    ensures r < |t| ==> t[r] !in accept
  {
    if t == [] || t[0] !in accept then 0 else 1 + Span(t[1..], accept)
  }

  /** strcspn: the length of the longest prefix free of rejected characters and of NUL. */
  function CSpan(t: string, reject: set<char>): (r: nat)
    ensures r <= |t|
    ensures forall i :: 0 <= i < r ==> t[i] !in reject && t[i] != NUL
    ensures r < |t| ==> t[r] in reject || t[r] == NUL
  {
    if t == [] || t[0] in reject || t[0] == NUL then 0 else 1 + CSpan(t[1..], reject)
  }

  /** isSep (objloader.cpp:190-192). */
  function IsSep(c: char): (r: bool)
    ensures r <==> c in Blanks
  {
    c == ' ' || c == '\t'
  }

  /**
    parseSep (objloader.cpp:155-159): at least one blank is required, and all
    leading blanks are skipped; none is left at the front.
  */
  function ParseSep(t: string): (r: Result<string, string>)
    ensures r.Failure? <==> !IsSep(At(t, 0))
    ensures r.Success? ==>
      && |r.value| < |t| && r.value == t[|t| - |r.value|..]
      && (forall i :: 0 <= i < |t| - |r.value| ==> IsSep(t[i]))
      && !IsSep(At(r.value, 0))
  {
    var n := Span(t, Blanks);
    if n == 0 then Failure("separator expected") else Success(t[n..])
  }

  /** parseSepOpt (objloader.cpp:185-187): skips zero or more blanks. */
  function ParseSepOpt(t: string): (r: string)
    ensures |r| <= |t| && r == t[|t| - |r|..]
    ensures forall i :: 0 <= i < |t| - |r| ==> IsSep(t[i])
    ensures !IsSep(At(r, 0))
  {
    t[Span(t, Blanks)..]
  }

  /** The position of the last c in s, if any (std::string::find_last_of). */
  function LastIndexOf(s: string, c: char): (r: Option<nat>)
    ensures r.None? <==> c !in s
    ensures r.Some? ==> r.value < |s| && s[r.value] == c && c !in s[r.value + 1..]
  {
    if s == [] then None
    else if s[|s| - 1] == c then Some(|s| - 1)
    else
      var r := LastIndexOf(s[..|s| - 1], c);
      assert r.Some? ==> s[r.value + 1..] == s[..|s| - 1][r.value + 1..] + [s[|s| - 1]];
      r
  }

  /**
    getFilePath (objloader.cpp:80-85): the directory part of a path, i.e.
    everything before the last '/', or the whole name when there is none.
  */
  function FilePath(filename: string): (r: string)
    ensures '/' !in filename ==> r == filename
    ensures '/' in filename ==> |r| < |filename| && r == filename[..|r|]
                                && filename[|r|] == '/' && '/' !in filename[|r| + 1..]
  {
    match LastIndexOf(filename, '/')
    case None => filename
    case Some(pos) => filename[..pos]
  }

  predicate IsDigit(c: char) {
    '0' <= c <= '9'
  }

  function DigitValue(c: char): nat
    requires IsDigit(c)
  {
    c as int - '0' as int
  }

  /** The length of the run of decimal digits at the front of t. */
  function DigitRun(t: string): (r: nat)
    ensures r <= |t|
    ensures forall i :: 0 <= i < r ==> IsDigit(t[i])
    ensures r < |t| ==> !IsDigit(t[r])
  {
    if t == [] || !IsDigit(t[0]) then 0 else 1 + DigitRun(t[1..])
  }

  /** The value of a string of decimal digits, most significant first. */
  function DigitsValue(d: string): nat
    requires forall i :: 0 <= i < |d| ==> IsDigit(d[i])
  {
    if d == [] then 0 else 10 * DigitsValue(d[..|d| - 1]) + DigitValue(d[|d| - 1])
  }

  /** The value of the run of digits at the front of t; 0 when there is none. */
  function LeadingValue(t: string): nat {
    DigitsValue(t[..DigitRun(t)])
  }

  /**
    atoi: skips leading white space, reads an optional sign and then as many
    digits as follow; no digits read as 0. Integers are unbounded here.
  */
  function Atoi(t: string): int {
    var s := t[Span(t, Spaces)..];
    if At(s, 0) == '-' then 0 - LeadingValue(s[1..])
    else if At(s, 0) == '+' then LeadingValue(s[1..])
    else LeadingValue(s)
  }

  /** The decimal digits of n, as printf's %d writes them. */
  function Digits(n: nat): (r: string)
    ensures |r| >= 1 && forall i :: 0 <= i < |r| ==> IsDigit(r[i])
    decreases n
  {
    var last := ('0' as int + n % 10) as char;
    if n < 10 then [last] else Digits(n / 10) + [last]
  }

  /** An integer written in decimal, with a leading '-' when negative. */
  function Decimal(a: int): (r: string)
    ensures |r| >= 1 && (r[0] == '-' || IsDigit(r[0]))
  {
    if a < 0 then "-" + Digits(-a) else Digits(a)
  }

  /** A decimal numeral holds only digits and possibly a leading minus sign. */
  lemma DecimalChars(a: int)
    ensures forall i :: 0 <= i < |Decimal(a)| ==> Decimal(a)[i] == '-' || IsDigit(Decimal(a)[i])
  {
  }

  /** Digits and DigitsValue are inverse. */
  lemma {:induction false} DigitsValueOfDigits(n: nat)
    ensures DigitsValue(Digits(n)) == n
    decreases n
  {
    var d := Digits(n);
    if n >= 10 {
      DigitsValueOfDigits(n / 10);
      assert d[..|d| - 1] == Digits(n / 10);
    }
  }

  /** A digit string followed by a non-digit is read as exactly that run. */
  lemma {:induction false} DigitRunOfPrefix(d: string, rest: string)
    requires forall i :: 0 <= i < |d| ==> IsDigit(d[i])
    requires rest == [] || !IsDigit(rest[0])
    ensures DigitRun(d + rest) == |d|
  {
    if d != [] {
      assert (d + rest)[1..] == d[1..] + rest;
      DigitRunOfPrefix(d[1..], rest);
    }
  }

  /** The leading value of a digit string followed by a non-digit is that string's value. */
  lemma {:induction false} LeadingValueOfDigits(n: nat, rest: string)
    requires rest == [] || !IsDigit(rest[0])
    ensures LeadingValue(Digits(n) + rest) == n
  {
    var d := Digits(n);
    DigitRunOfPrefix(d, rest);
    assert (d + rest)[..|d|] == d;
    DigitsValueOfDigits(n);
  }

  /** atoi on a token that starts with a sign or a digit: no white space to skip. */
  lemma AtoiUnspaced(t: string)
    requires t != [] && (t[0] == '-' || IsDigit(t[0]))
    ensures Atoi(t) == if t[0] == '-' then 0 - LeadingValue(t[1..]) else LeadingValue(t)
  {
    assert Span(t, Spaces) == 0;
  }

  /** atoi reads back any integer written in decimal, up to the next non-digit. */
  lemma {:induction false} AtoiDecimal(a: int, rest: string)
    requires rest == [] || !IsDigit(rest[0])
    ensures Atoi(Decimal(a) + rest) == a
  {
    if a < 0 {
      AtoiNegative(-a, rest);
    } else {
      var t := Digits(a) + rest;
      AtoiUnspaced(t);
      LeadingValueOfDigits(a, rest);
    }
  }

  lemma {:induction false} AtoiNegative(n: nat, rest: string)
    requires n > 0 && (rest == [] || !IsDigit(rest[0]))
    ensures Atoi(Decimal(0 - n) + rest) == 0 - n
  {
    var t := "-" + (Digits(n) + rest);
    assert Decimal(0 - n) + rest == t;
    assert t[1..] == Digits(n) + rest;
    AtoiUnspaced(t);
    LeadingValueOfDigits(n, rest);
  }

  /** strcspn stops right after a prefix free of rejected characters when the next one is rejected. */
  lemma {:induction false} CSpanOfPrefix(p: string, rest: string, reject: set<char>)
    requires forall i :: 0 <= i < |p| ==> p[i] !in reject && p[i] != NUL
    requires At(rest, 0) in reject || At(rest, 0) == NUL
    ensures CSpan(p + rest, reject) == |p|
  {
    if p != [] {
      assert (p + rest)[1..] == p[1..] + rest;
      CSpanOfPrefix(p[1..], rest, reject);
    }
  }
}
