/** Number parsing as the two implementations do it: JavaScript's `parseInt(s)`
    (with no radix) and `parseInt(s) || 0`, Python's `int(s)` and `s.isdigit()`,
    together with the decimal text that `awk` and `wc` print for an integer. */
module Numbers {
  import opened Wrappers
  import opened Strings

  predicate IsDigit(c: char) { '0' <= c <= '9' }

  predicate IsHexDigit(c: char) { IsDigit(c) || 'a' <= c <= 'f' || 'A' <= c <= 'F' }

  predicate IsRadixDigit(c: char, hex: bool) { if hex then IsHexDigit(c) else IsDigit(c) }

  predicate AllRadixDigits(d: string, hex: bool) {
    forall i :: 0 <= i < |d| ==> IsRadixDigit(d[i], hex)
  }

  function DigitValue(c: char): (v: nat)
    requires IsHexDigit(c)
    ensures v < 16 && (IsDigit(c) ==> v < 10)
  {
    if IsDigit(c) then c as int - '0' as int
    else if 'a' <= c <= 'f' then c as int - 'a' as int + 10
    else c as int - 'A' as int + 10
  }

  /** The value of a digit string in base 10 or 16, most significant digit first. */
  function DigitsValue(d: string, hex: bool): nat
    requires AllRadixDigits(d, hex)
  {
    if d == [] then 0
    else DigitsValue(d[..|d| - 1], hex) * (if hex then 16 else 10) + DigitValue(d[|d| - 1])
  }

  /** The length of the longest prefix of `s` made of digits of the radix. */
  function DigitRun(s: string, hex: bool): (n: nat)
    ensures n <= |s| && AllRadixDigits(s[..n], hex)
    ensures n < |s| ==> !IsRadixDigit(s[n], hex)
  {
    if s == [] || !IsRadixDigit(s[0], hex) then 0
    else
      var m := DigitRun(s[1..], hex);
      assert s[..m + 1] == [s[0]] + s[1..][..m];
      m + 1
  }

  /** The digit run is the only position where the digits stop. */
  lemma {:induction false} DigitRunIs(s: string, hex: bool, n: nat)
    requires n <= |s| && AllRadixDigits(s[..n], hex) && (n < |s| ==> !IsRadixDigit(s[n], hex))
    ensures DigitRun(s, hex) == n
  {
    if n > 0 {
      assert s[..n][0] == s[0];
      assert s[1..][..n - 1] == s[1..n];
      DigitRunIs(s[1..], hex, n - 1);
    }
  }

  /** The shortest decimal text of `n`, as `awk` and `wc` print it. */
  function Decimal(n: nat): (s: string)
    ensures |s| >= 1 && AllRadixDigits(s, false)
  {
    var last := [('0' as int + n % 10) as char];
    if n < 10 then last else Decimal(n / 10) + last
  }

  /** The decimal text of an integer, with a leading minus sign when it is negative. */
  function IntText(n: int): string {
    if n < 0 then "-" + Decimal(-n) else Decimal(n)
  }

  /** The printed integer is a run of digits, with a minus sign first when negative. */
  lemma IntTextShape(n: int)
    ensures var t := IntText(n);
      && |t| >= 1 && IsDigit(t[|t| - 1]) && (IsDigit(t[0]) || t[0] == '-')
      && forall i :: 0 <= i < |t| ==> IsDigit(t[i]) || (i == 0 && t[i] == '-')
  {
    if n < 0 {
      var d := Decimal(-n);
      assert IntText(n) == "-" + d;
      assert forall i :: 1 <= i < |IntText(n)| ==> IntText(n)[i] == d[i - 1];
    }
  }

  /** No character other than a digit or the minus sign occurs in a printed integer. */
  lemma IntTextExcludes(n: int, c: char)
    requires !IsDigit(c) && c != '-'
    ensures c !in IntText(n)
  {
    IntTextShape(n);
    var t := IntText(n);
    forall i | 0 <= i < |t|
      ensures t[i] != c
    {
    }
  }

  lemma {:induction false} DecimalValue(n: nat)
    ensures DigitsValue(Decimal(n), false) == n
  {
    var s := Decimal(n);
    if n >= 10 {
      DecimalValue(n / 10);
      assert s[..|s| - 1] == Decimal(n / 10);
    }
  }

  /** The unsigned part of `parseInt`: base 16 after `0x` or `0X`, base 10 otherwise,
      reading the longest run of digits; no digit at all is NaN (None). */
  function JsUnsigned(u: string): Option<nat> {
    var hex := |u| >= 2 && u[0] == '0' && (u[1] == 'x' || u[1] == 'X');
    var body := if hex then u[2..] else u;
    var n := DigitRun(body, hex);
    if n == 0 then None else Some(DigitsValue(body[..n], hex))
  }

  /** `parseInt(s)` with no radix: skip leading white space, take an optional sign,
      then read the unsigned digits. */
  function JsParseInt(s: string): Option<int> {
    JsSigned(TrimStart(s, IsJsSpace))
  }

  /** `parseInt` once the leading white space is skipped. */
  function JsSigned(t: string): Option<int> {
    var signed := |t| > 0 && (t[0] == '-' || t[0] == '+');
    match JsUnsigned(if signed then t[1..] else t)
    case None => None
    case Some(v) => var w: int := v; Some(if signed && t[0] == '-' then -w else w)
  }

  /** A decimal text followed by a non-digit (and not by `x`) reads back as its value. */
  lemma JsUnsignedDecimal(m: nat, rest: string)
    requires rest == [] || (!IsDigit(rest[0]) && rest[0] != 'x' && rest[0] != 'X')
    ensures JsUnsigned(Decimal(m) + rest) == Some(m)
  {
    var d := Decimal(m);
    var u := d + rest;
    assert |u| >= 2 ==> u[1] == (if |d| >= 2 then d[1] else rest[0]);
    assert u[..|d|] == d;
    assert |d| < |u| ==> u[|d|] == rest[0];
    DigitRunIs(u, false, |d|);
    DecimalValue(m);
  }

  /** `parseInt(s) || 0`: NaN (and zero) become 0. */
  function JsIntOrZero(s: string): int {
    match JsParseInt(s)
    case Some(v) => v
    case None => 0
  }

  /** `parseInt` reads back the integer `awk` or `wc` printed, whatever white space
      precedes it and whatever non-digit text follows it. */
  lemma JsParseIntText(pad: string, n: int, rest: string)
    requires AllSpace(pad, IsJsSpace)
    requires rest == [] || (!IsDigit(rest[0]) && rest[0] != 'x' && rest[0] != 'X')
    ensures JsParseInt(pad + IntText(n) + rest) == Some(n)
    ensures JsIntOrZero(pad + IntText(n) + rest) == n
  {
    var x := IntText(n) + rest;
    assert pad + IntText(n) + rest == pad + x;
    assert x[0] == IntText(n)[0];
    JsSkipsSpaces(pad, x);
    JsSignedText(n, rest);
  }

  /** `parseInt(n) || 0` reads back a printed integer. */
  lemma JsIntOrZeroText(n: int)
    ensures JsIntOrZero(IntText(n)) == n
  {
    JsParseIntText([], n, []);
    assert [] + IntText(n) + [] == IntText(n);
  }

  lemma JsSkipsSpaces(pad: string, x: string)
    requires AllSpace(pad, IsJsSpace) && x != [] && !IsJsSpace(x[0])
    ensures JsParseInt(pad + x) == JsSigned(x)
  {
    TrimStartPadded(pad, x, IsJsSpace);
  }

  lemma JsSignedText(n: int, rest: string)
    requires rest == [] || (!IsDigit(rest[0]) && rest[0] != 'x' && rest[0] != 'X')
    ensures JsSigned(IntText(n) + rest) == Some(n)
  {
    if n < 0 {
      JsSignedNegative(-n, rest);
    } else {
      JsSignedDecimal(n, rest);
    }
  }

  lemma JsSignedNegative(m: nat, rest: string)
    requires rest == [] || (!IsDigit(rest[0]) && rest[0] != 'x' && rest[0] != 'X')
    ensures JsSigned("-" + Decimal(m) + rest) == Some(-(m as int))
  {
    JsUnsignedDecimal(m, rest);
    assert "-" + Decimal(m) + rest == "-" + (Decimal(m) + rest);
    JsSignedMinus(Decimal(m) + rest, m);
  }

  /** A minus sign negates what follows it. */
  lemma JsSignedMinus(u: string, v: nat)
    requires JsUnsigned(u) == Some(v)
    ensures JsSigned("-" + u) == Some(-(v as int))
  {
    assert ("-" + u)[1..] == u;
  }

  lemma JsSignedDecimal(m: nat, rest: string)
    requires rest == [] || (!IsDigit(rest[0]) && rest[0] != 'x' && rest[0] != 'X')
    ensures JsSigned(Decimal(m) + rest) == Some(m)
  {
    var d := Decimal(m);
    JsUnsignedDecimal(m, rest);
    assert IsRadixDigit(d[0], false);
    assert (d + rest)[0] == d[0];
  }

  /** A string whose first non-space character is neither a digit nor a sign is NaN to `parseInt`. */
  lemma JsParseIntNaN(s: string)
    requires var t := TrimStart(s, IsJsSpace); t == [] || (!IsDigit(t[0]) && t[0] != '-' && t[0] != '+')
    ensures JsParseInt(s) == None && JsIntOrZero(s) == 0
  {
  }

  /** `s.isdigit()`, for ASCII text: non-empty and all digits. */
  predicate IsDigitString(s: string) {
    |s| > 0 && AllRadixDigits(s, false)
  }

  /** Python's literal grammar for base 10: digits, single underscores allowed between two digits. */
  predicate IsDigitGroups(b: string) {
    && |b| > 0 && IsDigit(b[0]) && IsDigit(b[|b| - 1])
    && DigitsAndMarks(b)
    && forall i, j :: 0 <= i < |b| && 0 <= j < |b| && j == i + 1 && b[i] == '_' ==> IsDigit(b[j])
  }

  /** Every character is a digit or an underscore. */
  predicate DigitsAndMarks(b: string) {
    forall i :: 0 <= i < |b| ==> IsDigit(b[i]) || b[i] == '_'
  }

  /** The digits of `b` with the underscores taken out. */
  function Ungrouped(b: string): (d: string)
    requires DigitsAndMarks(b)
    ensures AllRadixDigits(d, false)
    ensures AllRadixDigits(b, false) ==> d == b
  {
    if b == [] then []
    else (if b[0] == '_' then [] else [b[0]]) + Ungrouped(b[1..])
  }

  /** Python's `int(s)`: strip white space, take an optional sign, then base-10 digit
      groups; anything else raises ValueError (None). */
  function PyInt(s: string): Option<int> {
    PySigned(Trim(s, IsPySpace))
  }

  /** `int()` once the surrounding white space is stripped. */
  function PySigned(t: string): Option<int> {
    if |t| > 0 && (t[0] == '-' || t[0] == '+') then
      match PyUnsigned(t[1..])
      case None => None
      case Some(v) => var w: int := v; Some(if t[0] == '-' then -w else w)
    else
      match PyUnsigned(t)
      case None => None
      case Some(v) => Some(v)
  }

  function PyUnsigned(body: string): Option<nat> {
    if IsDigitGroups(body) then Some(DigitsValue(Ungrouped(body), false)) else None
  }

  /** `int()` reads back the integer `awk` or `wc` printed, whatever white space surrounds it. */
  lemma PyIntText(pre: string, n: int, post: string)
    requires AllSpace(pre, IsPySpace) && AllSpace(post, IsPySpace)
    ensures PyInt(pre + IntText(n) + post) == Some(n)
  {
    var x := IntText(n);
    assert !IsPySpace(x[0]) && !IsPySpace(x[|x| - 1]);
    TrimPadded(pre, x, post, IsPySpace);
    PySignedText(n);
  }

  lemma PySignedText(n: int)
    ensures PySigned(IntText(n)) == Some(n)
  {
    var x := IntText(n);
    var m: nat := if n < 0 then -n else n;
    var d := Decimal(m);
    DecimalValue(m);
    assert PyUnsigned(d) == Some(m);
    if n < 0 {
      assert x[0] == '-' && x[1..] == d;
    } else {
      assert x == d;
    }
  }

  /** `int()` raises on any character other than a digit, an underscore or a leading sign. */
  lemma PyIntRejects(s: string, i: nat)
    requires var t := Trim(s, IsPySpace);
      i < |t| && !IsDigit(t[i]) && t[i] != '_' && !(i == 0 && (t[i] == '-' || t[i] == '+'))
    ensures PyInt(s) == None
  {
    var t := Trim(s, IsPySpace);
    var body := if |t| > 0 && (t[0] == '-' || t[0] == '+') then t[1..] else t;
    assert PyInt(s) == None <==> PyUnsigned(body) == None;
    var j := if |t| > 0 && (t[0] == '-' || t[0] == '+') then i - 1 else i;
    assert 0 <= j < |body| && body[j] == t[i];
    assert !DigitsAndMarks(body);
  }
}
