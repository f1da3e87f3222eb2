/** Number scanning as the C library does it on a platform with 64-bit longs and 32-bit ints. */
module CNumbers {
  import opened Strings

  const ULONG_MAX: nat := 0xffff_ffff_ffff_ffff
  const LONG_MAX: int := 0x7fff_ffff_ffff_ffff

  predicate IsSpace(c: char) {
    c == ' ' || '\t' <= c <= '\r'
  }

  function DigitValue(c: char): nat {
    if '0' <= c <= '9' then c as int - '0' as int
    else if 'a' <= c <= 'z' then c as int - 'a' as int + 10
    else if 'A' <= c <= 'Z' then c as int - 'A' as int + 10
    else 36
  }

  // The value of v followed by the leading digits of s, and what comes after them.
  function Digits(s: string, base: nat, v: nat): (nat, string) {
    if s == [] || DigitValue(s[0]) >= base then (v, s) else Digits(s[1..], base, v * base + DigitValue(s[0]))
  }

  // An unsigned number in the base its prefix selects.
  function Magnitude(s: string): (nat, string) {
    if |s| > 2 && s[0] == '0' && (s[1] == 'x' || s[1] == 'X') && DigitValue(s[2]) < 16 then Digits(s[2..], 16, 0)
    else if s != [] && s[0] == '0' then Digits(s, 8, 0)
    else Digits(s, 10, 0)
  }

  function SkipSpace(s: string): string {
    if s != [] && IsSpace(s[0]) then SkipSpace(s[1..]) else s
  }

  // strtoul with base 0: result and unread rest; the whole string is left unread if it starts with no number.
  function Strtoul(s: string): (nat, string) {
    var t := SkipSpace(s);
    var negative := t != [] && t[0] == '-';
    var u := if t != [] && (t[0] == '-' || t[0] == '+') then t[1..] else t;
    var (v, rest) := Magnitude(u);
    if rest == u then (0, s)
    else if v > ULONG_MAX then (ULONG_MAX, rest)
    else (if negative && v > 0 then ULONG_MAX + 1 - v else v, rest)
  }

  // strtol with base 10: blanks, an optional sign, digits, clamped to a 64-bit long.
  function Strtol(s: string): int {
    var t := SkipSpace(s);
    var u := if t != [] && (t[0] == '-' || t[0] == '+') then t[1..] else t;
    var v: int := Digits(u, 10, 0).0;
    if t != [] && t[0] == '-' then (if v > LONG_MAX + 1 then -LONG_MAX - 1 else -v)
    else if v > LONG_MAX then LONG_MAX else v
  }

  // Conversion of a long to a 32-bit int, and of an int to unsigned 16 bits.
  function ToInt(v: int): (w: int)
    ensures -0x8000_0000 <= w <= 0x7fff_ffff && (w - v) % 0x1_0000_0000 == 0
  {
    var w := v % 0x1_0000_0000;
    if w >= 0x8000_0000 then w - 0x1_0000_0000 else w
  }

  function ToU16(v: int): (w: int)
    ensures 0 <= w <= 0xffff && (w - v) % 0x1_0000 == 0
  {
    v % 0x1_0000
  }

  lemma {:induction false} DigitsShort(s: string, base: nat, v: nat)
    ensures |Digits(s, base, v).1| <= |s|
    ensures |Digits(s, base, v).1| == |s| ==> Digits(s, base, v) == (v, s)
    decreases |s|
  {
    if s != [] && DigitValue(s[0]) < base {
      DigitsShort(s[1..], base, v * base + DigitValue(s[0]));
    }
  }

  lemma {:induction false} SkipShort(s: string)
    ensures |SkipSpace(s)| <= |s|
  {
    if s != [] && IsSpace(s[0]) {
      SkipShort(s[1..]);
    }
  }

  lemma StrtoulShort(s: string)
    ensures |Strtoul(s).1| <= |s|
  {
    SkipShort(s);
    var t := SkipSpace(s);
    var u := if t != [] && (t[0] == '-' || t[0] == '+') then t[1..] else t;
    DigitsShort(u, 8, 0);
    DigitsShort(u, 10, 0);
    if |u| > 2 {
      DigitsShort(u[2..], 16, 0);
    }
  }

  // ----- Scanning is local -----

  predicate StopsAt(t: string, sep: char) {
    t == [] || t[0] == sep
  }

  lemma {:induction false} DigitsLocal(p: string, t: string, base: nat, v: nat)
    requires t == [] || DigitValue(t[0]) >= base
    ensures Digits(p + t, base, v) == (Digits(p, base, v).0, Digits(p, base, v).1 + t)
    decreases |p|
  {
    if p == [] {
      assert p + t == t;
    } else if DigitValue(p[0]) < base {
      assert (p + t)[1..] == p[1..] + t;
      DigitsLocal(p[1..], t, base, v * base + DigitValue(p[0]));
    }
  }

  lemma {:induction false} SkipLocal(p: string, t: string, sep: char)
    requires !IsSpace(sep) && StopsAt(t, sep)
    ensures SkipSpace(p + t) == SkipSpace(p) + t
  {
    if p == [] {
      assert p + t == t;
    } else if IsSpace(p[0]) {
      assert (p + t)[1..] == p[1..] + t;
      SkipLocal(p[1..], t, sep);
    }
  }

  lemma {:induction false} DigitsSuffix(s: string, base: nat, v: nat)
    ensures forall c :: c in Digits(s, base, v).1 ==> c in s
    decreases |s|
  {
    if s != [] && DigitValue(s[0]) < base {
      DigitsSuffix(s[1..], base, v * base + DigitValue(s[0]));
    }
  }

  lemma {:induction false} SkipSuffix(s: string)
    ensures forall c :: c in SkipSpace(s) ==> c in s
  {
    if s != [] && IsSpace(s[0]) {
      SkipSuffix(s[1..]);
    }
  }

  lemma {:induction false} DigitsValue(s: string, v: nat, w: string)
    requires AllDigits(s) && AllDigits(w) && v == Value(w)
    ensures Digits(s, 10, v) == (Value(w + s), [])
    decreases |s|
  {
    if s == [] {
      assert w + s == w;
    } else {
      assert (w + [s[0]])[..|w|] == w;
      assert Value(w + [s[0]]) == 10 * v + DigitValue(s[0]);
      DigitsValue(s[1..], v * 10 + DigitValue(s[0]), w + [s[0]]);
      assert w + [s[0]] + s[1..] == w + s;
    }
  }

  // ----- Texts and their numbers -----

  function HexDigit(d: nat): (c: char)
    requires d < 16
    ensures DigitValue(c) == d && !IsSpace(c)
  {
    "0123456789abcdef"[d]
  }

  // The digits of n as printf's %x and %o give them.
  function Hex(n: nat): (s: string)
    ensures s != [] && forall k :: 0 <= k < |s| ==> DigitValue(s[k]) < 16 && !IsSpace(s[k])
  {
    if n < 16 then [HexDigit(n)] else Hex(n / 16) + [HexDigit(n % 16)]
  }

  function Octal(n: nat): (s: string)
    ensures s != [] && forall k :: 0 <= k < |s| ==> DigitValue(s[k]) < 8
  {
    if n < 8 then [HexDigit(n)] else Octal(n / 8) + [HexDigit(n % 8)]
  }

  lemma {:induction false} DigitsHex(n: nat)
    ensures Digits(Hex(n), 16, 0) == (n, "")
  {
    if n < 16 {
      OneDigit(HexDigit(n), 16, 0);
    } else {
      DigitsHex(n / 16);
      LastDigit(Hex(n / 16), 16, n / 16, n % 16);
    }
  }

  lemma {:induction false} DigitsOctal(n: nat)
    ensures Digits(Octal(n), 8, 0) == (n, "")
  {
    if n < 8 {
      OneDigit(HexDigit(n), 8, 0);
    } else {
      DigitsOctal(n / 8);
      LastDigit(Octal(n / 8), 8, n / 8, n % 8);
    }
  }

  lemma LastDigit(p: string, base: nat, q: nat, r: nat)
    requires 2 <= base <= 16 && r < base
    requires (forall k :: 0 <= k < |p| ==> DigitValue(p[k]) < base) && Digits(p, base, 0) == (q, "")
    ensures Digits(p + [HexDigit(r)], base, 0) == (q * base + r, "")
  {
    var c := HexDigit(r);
    OneDigit(c, base, q);
    DigitsAppend(p, [c], base, 0);
  }

  lemma OneDigit(c: char, base: nat, v: nat)
    requires DigitValue(c) < base
    ensures Digits([c], base, v) == (v * base + DigitValue(c), "")
  {
    assert [c][1..] == "";
  }

  lemma {:induction false} DigitsAppend(p: string, q: string, base: nat, v: nat)
    requires forall k :: 0 <= k < |p| ==> DigitValue(p[k]) < base
    ensures Digits(p + q, base, v) == Digits(q, base, Digits(p, base, v).0)
    decreases |p|
  {
    if p == [] {
      assert p + q == q;
    } else {
      assert (p + q)[1..] == p[1..] + q;
      DigitsAppend(p[1..], q, base, v * base + DigitValue(p[0]));
    }
  }

  function Upper(c: char): char {
    if 'a' <= c <= 'z' then (c as int - 32) as char else c
  }

  function UpperCase(s: string): (u: string)
    ensures |u| == |s| && forall k :: 0 <= k < |s| ==> u[k] == Upper(s[k])
  {
    seq(|s|, k requires 0 <= k < |s| => Upper(s[k]))
  }

  // Case plays no role in reading digits.
  lemma {:induction false} DigitsIgnoreCase(s: string, base: nat, v: nat)
    ensures Digits(UpperCase(s), base, v) == (Digits(s, base, v).0, UpperCase(Digits(s, base, v).1))
    decreases |s|
  {
    if s != [] && DigitValue(s[0]) < base {
      assert UpperCase(s)[1..] == UpperCase(s[1..]);
      DigitsIgnoreCase(s[1..], base, v * base + DigitValue(s[0]));
    }
  }

  // The characters isspace knows.
  predicate Blanks(ws: string) {
    forall k :: 0 <= k < |ws| ==> ws[k] in {' ', '\t', '\n', 11 as char, 12 as char, '\r'}
  }

  lemma SpaceIsBlank(c: char)
    ensures IsSpace(c) <==> Blanks([c])
  {
    assert [c][0] == c;
  }

  lemma {:induction false} SkipBlanks(ws: string, s: string)
    requires Blanks(ws) && s != [] && !IsSpace(s[0])
    ensures SkipSpace(ws + s) == s
  {
    if ws == [] {
      assert ws + s == s;
    } else {
      assert (ws + s)[1..] == ws[1..] + s;
      SkipBlanks(ws[1..], s);
    }
  }

  // Digits up to the first other character.
  lemma DigitsRead(ds: string, rest: string)
    requires AllDigits(ds) && (rest == [] || !IsDigit(rest[0]))
    ensures Digits(ds + rest, 10, 0).0 == Value(ds)
  {
    DigitsLocal(ds, rest, 10, 0);
    DigitsValue(ds, 0, "");
    assert "" + ds == ds;
  }

  // strtol reads blanks, a sign and digits up to the first other character, and clamps the number
  // to 64 bits.
  lemma StrtolReads(ws: string, sign: string, ds: string, rest: string)
    requires Blanks(ws) && sign in {"", "+", "-"} && ds != [] && AllDigits(ds)
    requires rest == [] || !IsDigit(rest[0])
    ensures Strtol(ws + (sign + (ds + rest))) == Clamped(sign, Value(ds))
  {
    var u := ds + rest;
    var t := sign + u;
    assert u[0] == ds[0] && t[0] == (if sign == "" then ds[0] else sign[0]);
    SkipBlanks(ws, t);
    assert (if t[0] == '-' || t[0] == '+' then t[1..] else t) == u;
    DigitsRead(ds, rest);
  }

  function Clamped(sign: string, v: int): int {
    if sign == "-" then (if v > 0x8000_0000_0000_0000 then -0x8000_0000_0000_0000 else -v)
    else if v > 0x7fff_ffff_ffff_ffff then 0x7fff_ffff_ffff_ffff
    else v
  }

  // And it is 0 for a text in which no digit comes after the blanks and the sign.
  lemma StrtolNothing(ws: string, sign: string, rest: string)
    requires Blanks(ws) && sign in {"", "+", "-"}
    requires rest == [] || (!IsDigit(rest[0]) && (sign == "" ==> !Blanks([rest[0]]) && rest[0] !in {'+', '-'}))
    ensures Strtol(ws + (sign + rest)) == 0
  {
    var t := sign + rest;
    if rest != [] {
      SpaceIsBlank(rest[0]);
    }
    if t == [] {
      assert ws + t == ws;
      SkipAll(ws);
    } else {
      assert t[0] == if sign == "" then rest[0] else sign[0];
      SkipBlanks(ws, t);
      assert (if t[0] == '-' || t[0] == '+' then t[1..] else t) == rest;
    }
  }

  lemma {:induction false} SkipAll(ws: string)
    requires Blanks(ws)
    ensures SkipSpace(ws) == ""
  {
    if ws != [] {
      SkipAll(ws[1..]);
    }
  }

  // A text with no digit behind the blanks and the sign is left unread.
  lemma StrtoulNothing(ws: string, sign: string, rest: string)
    requires Blanks(ws) && sign in {"", "+", "-"}
    requires rest == [] || (!IsDigit(rest[0]) && (sign == "" ==> !Blanks([rest[0]]) && rest[0] !in {'+', '-'}))
    ensures Strtoul(ws + (sign + rest)) == (0, ws + (sign + rest))
  {
    var t := sign + rest;
    if rest != [] {
      SpaceIsBlank(rest[0]);
    }
    if t == [] {
      assert ws + t == ws;
      SkipAll(ws);
    } else {
      assert t[0] == if sign == "" then rest[0] else sign[0];
      SkipBlanks(ws, t);
      assert (if t[0] == '-' || t[0] == '+' then t[1..] else t) == rest;
    }
  }

  // The three ways to write a number for strtoul with base 0.
  predicate Writes(s: string, v: nat) {
    || s == Decimal(v)
    || s in {"0x" + Hex(v), "0X" + Hex(v), "0x" + UpperCase(Hex(v))}
    || s == "0" + Octal(v)
  }

  // strtoul reads each of them whole, also behind blanks and a sign; a minus sign negates modulo
  // 2^64.
  lemma StrtoulReads(ws: string, sign: string, s: string, v: nat)
    requires Blanks(ws) && sign in {"", "+", "-"} && Writes(s, v) && v < 0x1_0000_0000_0000_0000
    ensures Strtoul(ws + (sign + s)) == (if sign == "-" then (0x1_0000_0000_0000_0000 - v) % 0x1_0000_0000_0000_0000 else v, "")
  {
    MagnitudeReads(s, v);
    StrtoulSigned(ws, sign, s, v);
  }

  lemma StrtoulSigned(ws: string, sign: string, s: string, v: nat)
    requires Blanks(ws) && sign in {"", "+", "-"} && s != [] && IsDigit(s[0]) && Magnitude(s) == (v, "")
    requires v < 0x1_0000_0000_0000_0000
    ensures Strtoul(ws + (sign + s)) == (if sign == "-" && v > 0 then 0x1_0000_0000_0000_0000 - v else v, "")
  {
    var t := sign + s;
    assert t[0] == if sign == "" then s[0] else sign[0];
    SkipBlanks(ws, t);
    assert (if t[0] == '-' || t[0] == '+' then t[1..] else t) == s;
  }

  lemma MagnitudeReads(s: string, v: nat)
    requires Writes(s, v)
    ensures Magnitude(s) == (v, "") && s != [] && IsDigit(s[0])
  {
    if s == Decimal(v) {
      MagnitudeDecimal(v);
    } else if s == "0" + Octal(v) {
      assert s[1..] == Octal(v);
      assert Digits(s, 8, 0) == Digits(s[1..], 8, 0);
      DigitsOctal(v);
      assert |s| > 2 ==> DigitValue(s[1]) < 8;
    } else {
      DigitsHex(v);
      DigitsIgnoreCase(Hex(v), 16, 0);
      assert s[2..] in {Hex(v), UpperCase(Hex(v))};
      assert UpperCase("") == "";
    }
  }

  lemma MagnitudeDecimal(n: nat)
    ensures Magnitude(Decimal(n)) == (n, "")
  {
    var s := Decimal(n);
    if n == 0 {
      assert s[1..] == "";
      assert Digits(s, 8, 0) == Digits(s[1..], 8, 0 * 8 + 0);
    } else {
      DigitsValue(s, 0, "");
      assert "" + s == s;
      ValueDecimal(n);
    }
  }

  // atoi gives back the numbers printf's %d writes.
  lemma AtoiDecimal(sign: string, n: nat)
    requires sign in {"", "-"} && n <= 0x7fff_ffff
    ensures ToInt(Strtol(sign + Decimal(n))) == if sign == "-" then 0 - n else n
  {
    StrtolDecimal(sign, n);
    ToIntSmall(Clamped(sign, n));
  }

  lemma ToIntSmall(v: int)
    requires -0x8000_0000 <= v <= 0x7fff_ffff
    ensures ToInt(v) == v
  {
  }

  lemma StrtolDecimal(sign: string, n: nat)
    requires sign in {"", "-"}
    ensures Strtol(sign + Decimal(n)) == Clamped(sign, n)
  {
    var ds := Decimal(n);
    ValueDecimal(n);
    StrtolReads("", sign, ds, "");
    assert ds + "" == ds && "" + (sign + ds) == sign + ds;
  }
}
