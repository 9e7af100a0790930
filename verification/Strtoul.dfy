/** The C library's `strtoul`, on which the parser relies for Content-Length (base 10) and for
    chunk sizes (base 16), together with the digit printer it inverts.  What it reads is stated
    against tables of the digits and of white space, for every text. */
module Strtoul {

  const ULONG_MAX: nat := 0xFFFF_FFFF_FFFF_FFFF

  predicate IsSpace(c: char) {
    c == ' ' || 9 <= c as int <= 13
  }

  /** The value of a digit, or -1. */
  function DigitValue(c: char): (v: int)
    ensures -1 <= v < 16
  {
    if '0' <= c <= '9' then c as int - '0' as int
    else if 'a' <= c <= 'f' then c as int - 'a' as int + 10
    else if 'A' <= c <= 'F' then c as int - 'A' as int + 10
    else -1
  }

  predicate IsDigit(c: char, base: nat) {
    0 <= DigitValue(c) < base
  }

  function SkipSpace(s: string): (r: string) {
    if s != "" && IsSpace(s[0]) then SkipSpace(s[1..]) else s
  }

  predicate Blank(s: string) {
    forall i :: 0 <= i < |s| ==> IsSpace(s[i])
  }

  /** Reads digits until the first character that is not one. */
  function Accumulate(s: string, base: nat, acc: nat): (v: nat) {
    if s == "" || !IsDigit(s[0], base) then acc
    else Accumulate(s[1..], base, acc * base + DigitValue(s[0]))
  }

  function Magnitude(s: string, base: nat): (v: nat) {
    if base == 16 && |s| >= 2 && s[0] == '0' && (s[1] == 'x' || s[1] == 'X')
    then Accumulate(s[2..], base, 0)
    else Accumulate(s, base, 0)
  }

  function Unsign(t: string): (r: string) {
    if t != "" && (t[0] == '+' || t[0] == '-') then t[1..] else t
  }

  function Clamp(v: nat, negative: bool): (r: nat)
    ensures r <= ULONG_MAX
    ensures r == 0 <==> v == 0
  {
    if v > ULONG_MAX then ULONG_MAX
    else if negative && v != 0 then ULONG_MAX + 1 - v
    else v
  }

  /** Leading white space, an optional sign, an optional 0x in base 16, digits;
      saturates at ULONG_MAX and negates modulo 2^64. */
  function StrToUl(s: string, base: nat): (v: nat)
    ensures v <= ULONG_MAX
  {
    var t := SkipSpace(s);
    Clamp(Magnitude(Unsign(t), base), t != "" && t[0] == '-')
  }

  // ---- where the number ends ----

  lemma {:induction false} SkipSpaceBlank(s: string, x: string)
    requires Blank(s)
    ensures SkipSpace(s + x) == SkipSpace(x)
    ensures SkipSpace(s) == ""
  {
    if s == "" {
      assert s + x == x;
    } else {
      assert (s + x)[1..] == s[1..] + x;
      SkipSpaceBlank(s[1..], x);
    }
  }

  lemma {:induction false} SkipSpaceSolid(s: string, x: string)
    requires !Blank(s)
    ensures SkipSpace(s) != ""
    ensures SkipSpace(s + x) == SkipSpace(s) + x
  {
    assert s != "";
    if IsSpace(s[0]) {
      assert !Blank(s[1..]) by {
        var i :| 0 <= i < |s| && !IsSpace(s[i]);
        assert s[1..][i - 1] == s[i];
      }
      assert (s + x)[1..] == s[1..] + x;
      SkipSpaceSolid(s[1..], x);
    }
  }

  lemma {:induction false} AccumulateStops(s: string, x: string, base: nat, acc: nat)
    requires x == "" || !IsDigit(x[0], base)
    ensures Accumulate(s + x, base, acc) == Accumulate(s, base, acc)
  {
    if s == "" {
      assert s + x == x;
    } else {
      assert (s + x)[1..] == s[1..] + x;
      if IsDigit(s[0], base) {
        AccumulateStops(s[1..], x, base, acc * base + DigitValue(s[0]));
      }
    }
  }

  lemma MagnitudeStops(s: string, x: string, base: nat)
    requires x == "" || (!IsDigit(x[0], base) && x[0] == '\r')
    ensures Magnitude(s + x, base) == Magnitude(s, base)
  {
    AccumulateStops(s, x, base, 0);
    if |s| >= 2 {
      assert (s + x)[2..] == s[2..] + x;
      AccumulateStops(s[2..], x, base, 0);
    }
  }

  /** A line holding anything but white space fixes the number: what comes after its
      carriage return cannot change the value. */
  lemma StrToUlLocal(line: string, x: string, base: nat)
    requires !Blank(line)
    requires x == "" || x[0] == '\r'
    ensures StrToUl(line + x, base) == StrToUl(line, base)
  {
    SkipSpaceSolid(line, x);
    var t := SkipSpace(line);
    assert (t + x)[0] == t[0];
    assert Unsign(t + x) == Unsign(t) + x by {
      assert (t + x)[1..] == t[1..] + x;
    }
    MagnitudeStops(Unsign(t), x, base);
  }

  lemma StrToUlBlank(s: string, base: nat)
    requires Blank(s)
    ensures StrToUl(s, base) == 0
  {
    SkipSpaceBlank(s, "");
  }

  // ---- what a number is ----

  /** Both spellings of each digit, at the place of its value. */
  const LOWER := "0123456789abcdef"
  const UPPER := "0123456789ABCDEF"

  /** White space of the C locale. */
  const WHITE := {' ', '\t', '\n', 11 as char, 12 as char, '\r'}

  predicate Spells(c: char, d: nat) {
    d < 16 && (c == LOWER[d] || c == UPPER[d])
  }

  /** The string does not go on with a digit of the base. */
  predicate NoDigitAhead(s: string, base: nat) {
    s != "" ==> forall d: nat :: d < base ==> !Spells(s[0], d)
  }

  /** The value of digits written one after the other. */
  function Positional(digits: seq<nat>, base: nat): (v: nat) {
    if digits == [] then 0 else Positional(digits[..|digits| - 1], base) * base + digits[|digits| - 1]
  }

  /** A text taken apart: white space, a sign, the 0x of base 16, digits in either case, and
      what follows the number. */
  datatype Numeral = Numeral(blank: string, sign: string, prefix: string,
                             digits: seq<nat>, spelling: string, rest: string)
  {
    function Text(): (s: string) {
      blank + (sign + (prefix + (spelling + rest)))
    }
  }

  predicate WhiteOnly(s: string) {
    forall i :: 0 <= i < |s| ==> s[i] in WHITE
  }

  predicate Spelled(digits: seq<nat>, spelling: string, base: nat) {
    |spelling| == |digits| && forall i :: 0 <= i < |digits| ==> digits[i] < base && Spells(spelling[i], digits[i])
  }

  /** Every part is as long as it can be. */
  predicate Proper(t: Numeral, base: nat) {
    && WhiteOnly(t.blank)
    && t.sign in {"", "+", "-"}
    && (t.prefix == "" || (base == 16 && t.prefix in {"0x", "0X"}))
    && Spelled(t.digits, t.spelling, base)
    && NoDigitAhead(t.rest, base)
    && (t.prefix == t.spelling == "" && t.sign == "" && t.rest != "" ==> t.rest[0] !in WHITE + {'+', '-'})
    && (base == 16 && t.prefix == "" && t.spelling == "0" && t.rest != "" ==> t.rest[0] !in {'x', 'X'})
  }

  /** Every text is made that way. */
  lemma EveryText(s: string, base: nat) returns (t: Numeral)
    requires 2 <= base <= 16
    ensures t.Text() == s && Proper(t, base)
  {
    var blank, a := SplitWhite(s);
    var sign, b := SplitSign(a);
    var prefix, c := SplitPrefix(b, base);
    var digits, spelling, rest := SplitDigits(c, base);
    t := Numeral(blank, sign, prefix, digits, spelling, rest);
    assert prefix == spelling == "" && sign == "" ==> rest == a;
    if prefix == "" && spelling == "0" && rest != "" {
      assert c[0] == '0' && c[1] == rest[0];
    }
  }

  lemma {:induction false} SplitWhite(s: string) returns (blank: string, t: string)
    ensures s == blank + t && WhiteOnly(blank) && (t != "" ==> t[0] !in WHITE)
  {
    if s == "" || s[0] !in WHITE {
      blank, t := "", s;
    } else {
      blank, t := SplitWhite(s[1..]);
      blank := [s[0]] + blank;
    }
  }

  lemma SplitSign(s: string) returns (sign: string, t: string)
    ensures s == sign + t && sign in {"", "+", "-"}
    ensures sign == "" && s != "" ==> s[0] !in {'+', '-'}
  {
    if s != "" && s[0] in {'+', '-'} {
      sign, t := s[..1], s[1..];
      assert sign == [s[0]];
    } else {
      sign, t := "", s;
    }
  }

  lemma SplitPrefix(s: string, base: nat) returns (prefix: string, t: string)
    ensures s == prefix + t && (prefix == "" || (base == 16 && prefix in {"0x", "0X"}))
    ensures prefix == "" && base == 16 && |s| >= 2 && s[0] == '0' ==> s[1] !in {'x', 'X'}
  {
    if base == 16 && |s| >= 2 && s[0] == '0' && s[1] in {'x', 'X'} {
      prefix, t := s[..2], s[2..];
      assert prefix == ['0', s[1]];
    } else {
      prefix, t := "", s;
    }
  }

  lemma {:induction false} SplitDigits(s: string, base: nat) returns (digits: seq<nat>, spelling: string, rest: string)
    requires base <= 16
    ensures s == spelling + rest && Spelled(digits, spelling, base) && NoDigitAhead(rest, base)
  {
    if s != "" && exists d: nat :: d < base && Spells(s[0], d) {
      var d: nat :| d < base && Spells(s[0], d);
      digits, spelling, rest := SplitDigits(s[1..], base);
      digits, spelling := [d] + digits, [s[0]] + spelling;
    } else {
      digits, spelling, rest := [], "", s;
    }
  }

  /** What the tables say of a character is what the reader makes of it. */
  lemma SpellsDigit(c: char, base: nat)
    requires base <= 16
    ensures forall d: nat :: d < base && Spells(c, d) ==> IsDigit(c, base) && DigitValue(c) == d
    ensures IsDigit(c, base) ==> Spells(c, DigitValue(c))
    ensures IsSpace(c) <==> c in WHITE
  {
    forall d: nat | d < base && Spells(c, d) ensures DigitValue(c) == d {
      DigitAt(d);
    }
  }

  lemma DigitAt(d: nat)
    requires d < 16
    ensures DigitValue(LOWER[d]) == d && DigitValue(UPPER[d]) == d
  {
  }

  lemma {:induction false} AccumulateSpelled(digits: seq<nat>, spelling: string, base: nat, t: string)
    requires 2 <= base <= 16 && Spelled(digits, spelling, base)
    ensures Accumulate(spelling + t, base, 0) == Accumulate(t, base, Positional(digits, base))
    decreases |digits|
  {
    if digits == [] {
      assert spelling + t == t;
    } else {
      var k := |digits| - 1;
      var c := spelling[k];
      assert spelling + t == spelling[..k] + ([c] + t);
      AccumulateSpelled(digits[..k], spelling[..k], base, [c] + t);
      SpellsDigit(c, base);
      AccumulateDigit(c, t, base, Positional(digits[..k], base));
    }
  }

  lemma AccumulateDigit(c: char, t: string, base: nat, acc: nat)
    requires IsDigit(c, base)
    ensures Accumulate([c] + t, base, acc) == Accumulate(t, base, acc * base + DigitValue(c))
  {
    assert ([c] + t)[1..] == t;
  }

  lemma StopsAt(s: string, base: nat, acc: nat)
    requires base <= 16 && NoDigitAhead(s, base)
    ensures Accumulate(s, base, acc) == acc
  {
    if s != "" {
      SpellsDigit(s[0], base);
    }
  }

  /** The digits begin right after the prefix, if there is one. */
  lemma PrefixOf(t: Numeral, base: nat)
    requires 2 <= base <= 16 && Proper(t, base)
    ensures var u := t.spelling + t.rest;
            Magnitude(t.prefix + u, base) == Accumulate(u, base, 0)
  {
    hide Accumulate;
    var u := t.spelling + t.rest;
    if t.prefix != "" {
      assert (t.prefix + u)[2..] == u;
    } else {
      assert t.prefix + u == u;
      if |u| >= 2 && u[0] == '0' && base == 16 {
        assert Spells('0', 0);
        assert t.spelling != "";
        if |t.spelling| == 1 {
          assert t.spelling == "0" && u[1] == t.rest[0];
        } else {
          SpellsDigit(u[1], base);
        }
      }
    }
  }

  /** The number begins at the sign, or without one at the digits. */
  lemma SignOf(t: Numeral, base: nat)
    requires 2 <= base <= 16 && Proper(t, base)
    ensures var u := t.prefix + (t.spelling + t.rest);
            var x := t.sign + u;
            SkipSpace(x) == x && Unsign(x) == u && (x != "" && x[0] == '-' <==> t.sign == "-")
  {
    var u := t.prefix + (t.spelling + t.rest);
    var x := t.sign + u;
    if t.sign != "" {
      assert x[0] == t.sign[0] && x[1..] == u;
    } else {
      assert x == u;
      if x != "" {
        SpellsDigit(x[0], base);
        if t.prefix == "" && t.spelling != "" {
          assert x[0] == t.spelling[0];
        }
      }
    }
  }

  lemma BlankIsWhite(s: string)
    ensures Blank(s) <==> WhiteOnly(s)
  {
    forall i | 0 <= i < |s| ensures IsSpace(s[i]) <==> s[i] in WHITE {
      SpellsDigit(s[i], 16);
    }
  }

  /** The number a text denotes: the digits' positional value in their base, saturated at the
      largest unsigned long, and taken from 2^64 after a minus. */
  function Denotes(t: Numeral, base: nat): (n: nat) {
    var v := Positional(t.digits, base);
    if v > ULONG_MAX then ULONG_MAX
    else if t.sign == "-" && v > 0 then ULONG_MAX + 1 - v
    else v
  }

  /** `strtoul` returns, for every text, the number it denotes. */
  lemma StrToUlReads(t: Numeral, base: nat)
    requires 2 <= base <= 16 && Proper(t, base)
    ensures StrToUl(t.Text(), base) == Denotes(t, base)
  {
    hide SkipSpace, Unsign, Magnitude, Positional, Accumulate;
    var u := t.prefix + (t.spelling + t.rest);
    BlankIsWhite(t.blank);
    SkipSpaceBlank(t.blank, t.sign + u);
    SignOf(t, base);
    PrefixOf(t, base);
    AccumulateSpelled(t.digits, t.spelling, base, t.rest);
    StopsAt(t.rest, base, Positional(t.digits, base));
  }

  // ---- printing ----

  /** The digits of a number, none of them superfluous. */
  function DigitsOf(n: nat, base: nat): (digits: seq<nat>)
    requires 2 <= base <= 16
    ensures digits != [] && forall i :: 0 <= i < |digits| ==> digits[i] < base
    ensures n != 0 ==> digits[0] != 0
    ensures n == 0 ==> digits == [0]
  {
    if n < base then [n] else DigitsOf(n / base, base) + [n % base]
  }

  function ToDigits(n: nat, base: nat): (s: string)
    requires 2 <= base <= 16
    ensures |s| == |DigitsOf(n, base)| && forall i :: 0 <= i < |s| ==> s[i] == LOWER[DigitsOf(n, base)[i]]
  {
    var digits := DigitsOf(n, base);
    seq(|digits|, i requires 0 <= i < |digits| => LOWER[digits[i]])
  }

  lemma Recompose(n: nat, base: nat)
    requires 2 <= base <= n
    ensures n / base * base + n % base == n
    ensures n / base < n
  {
  }

  lemma DigitsSplit(n: nat, base: nat)
    requires 2 <= base <= 16 && base <= n
    ensures DigitsOf(n, base) == DigitsOf(n / base, base) + [n % base]
  {
  }

  lemma PositionalLast(digits: seq<nat>, d: nat, base: nat)
    ensures Positional(digits + [d], base) == Positional(digits, base) * base + d
  {
    assert (digits + [d])[..|digits|] == digits;
  }

  lemma {:induction false} PositionalDigits(n: nat, base: nat)
    requires 2 <= base <= 16
    ensures Positional(DigitsOf(n, base), base) == n
    decreases n
  {
    if n < base {
      assert [n][..0] == [];
    } else {
      hide Positional, DigitsOf;
      Recompose(n, base);
      DigitsSplit(n, base);
      PositionalDigits(n / base, base);
      PositionalLast(DigitsOf(n / base, base), n % base, base);
    }
  }

  /** Printed digits are digits, so neither white space nor punctuation. */
  lemma PrintedPlain(n: nat, base: nat)
    requires 2 <= base <= 16
    ensures ToDigits(n, base) != "" && Spelled(DigitsOf(n, base), ToDigits(n, base), base)
    ensures forall i :: 0 <= i < |ToDigits(n, base)| ==> IsDigit(ToDigits(n, base)[i], base)
    ensures '\r' !in ToDigits(n, base) && ' ' !in ToDigits(n, base) && ';' !in ToDigits(n, base)
  {
    hide DigitsOf;
    var s := ToDigits(n, base);
    forall i | 0 <= i < |s| ensures IsDigit(s[i], base) {
      SpellsDigit(s[i], base);
    }
  }

  lemma NoSuperfluousZero(n: nat, base: nat)
    requires 2 <= base <= 16
    ensures ToDigits(n, base) != "" && (ToDigits(n, base)[0] == '0' ==> n == 0 && ToDigits(n, base) == "0")
  {
    hide DigitsOf;
  }

  lemma PrintedReads(sign: string, n: nat, base: nat)
    requires 2 <= base <= 16 && sign in {"", "-"}
    ensures StrToUl(sign + ToDigits(n, base), base)
         == if n > ULONG_MAX then ULONG_MAX else if sign == "-" && n > 0 then ULONG_MAX + 1 - n else n
  {
    hide Positional, StrToUl, DigitsOf, ToDigits;
    PrintedPlain(n, base);
    PositionalDigits(n, base);
    var t := Numeral("", sign, "", DigitsOf(n, base), ToDigits(n, base), "");
    assert t.Text() == sign + ToDigits(n, base);
    assert t.spelling != "";
    assert Proper(t, base);
    StrToUlReads(t, base);
  }

  /** Printing and reading back: in every base, up to the largest unsigned long. */
  lemma StrToUlToDigits(n: nat, base: nat)
    requires 2 <= base <= 16 && n <= ULONG_MAX
    ensures StrToUl(ToDigits(n, base), base) == n
  {
    hide StrToUl, ToDigits;
    assert "" + ToDigits(n, base) == ToDigits(n, base);
    PrintedReads("", n, base);
  }
}
