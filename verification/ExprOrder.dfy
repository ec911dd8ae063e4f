// What the comparisons = != < <= > >= mean (expr_parse_string and
// expr_calc_value in scripts/config/expr.c).

module ExprOrder {
  import opened Wrappers
  import opened TristateLogic
  import opened Exprs

  // ----- texts as numbers -----

  predicate IsDigit(c: char, base: nat) {
    if base == 16 then '0' <= c <= '9' || 'a' <= c <= 'f' || 'A' <= c <= 'F' else '0' <= c <= '9'
  }

  function Digit(c: char): nat
    requires IsDigit(c, 16)
  {
    if c <= '9' then c as nat - '0' as nat
    else if c <= 'F' then c as nat - 'A' as nat + 10
    else c as nat - 'a' as nat + 10
  }

  predicate AreDigits(s: string, base: nat) {
    forall i | 0 <= i < |s| :: IsDigit(s[i], base)
  }

  /** The number that digits stand for, read from the left. */
  function ReadOn(s: string, base: nat, sofar: nat): nat
    requires AreDigits(s, base) && (base == 10 || base == 16)
  {
    if s == "" then sofar else ReadOn(s[1..], base, sofar * base + Digit(s[0]))
  }

  lemma {:induction false} ReadLast(s: string, c: char, base: nat, sofar: nat)
    requires AreDigits(s, base) && IsDigit(c, base) && (base == 10 || base == 16)
    ensures AreDigits(s + [c], base) && ReadOn(s + [c], base, sofar) == ReadOn(s, base, sofar) * base + Digit(c)
  {
    if s == "" {
      assert s + [c] == [c] && [c][1..] == "";
    } else {
      assert (s + [c])[1..] == s[1..] + [c];
      ReadLast(s[1..], c, base, sofar * base + Digit(s[0]));
    }
  }

  lemma DigitsMatch(c: char, base: nat)
    requires IsDigit(c, base) && (base == 10 || base == 16)
    ensures DigitValue(c) == Digit(c) < base
  {
  }

  lemma {:induction false} DigitsAreRead(s: string, base: nat)
    requires s != "" && AreDigits(s, base) && (base == 10 || base == 16)
    ensures DigitsValue(s, base) == Some(ReadOn(s, base, 0))
  {
    var front, c := s[..|s| - 1], s[|s| - 1];
    assert s == front + [c];
    DigitsMatch(c, base);
    ReadLast(front, c, base, 0);
    hide DigitValue, Digit, IsDigit;
    if front == "" {
      assert ReadOn("", base, 0) == 0;
    } else {
      DigitsAreRead(front, base);
    }
  }

  /** An optional minus sign and decimal digits. */
  predicate IsDecimal(s: string) {
    var digits := if s != "" && s[0] == '-' then s[1..] else s;
    digits != "" && AreDigits(digits, 10)
  }

  function Decimal(s: string): int
    requires IsDecimal(s)
  {
    if s[0] == '-' then -(ReadOn(s[1..], 10, 0) as int) else ReadOn(s, 10, 0)
  }

  lemma DecimalIsParsed(s: string, base: nat)
    requires IsDecimal(s) && (base == 10 || (base == 0 && (if s[0] == '-' then s[1..] else s)[0] != '0'))
    ensures ParseNumber(s, base) == Some(Decimal(s))
  {
    var digits := if s[0] == '-' then s[1..] else s;
    assert IsDigit(digits[0], 10);
    assert SkipSpaces(s) == s;
    DigitsAreRead(digits, 10);
    hide DigitsValue, ReadOn, SkipSpaces;
  }

  lemma ZeroIsParsed()
    ensures ParseNumber("0", 0) == Some(0) && IsDecimal("0") && Decimal("0") == 0
  {
    assert "0"[1..] == "" && ReadOn("", 10, 0) == 0;
    assert DigitsValue("0", 8) == Some(0);
    assert SkipSpaces("0") == "0";
  }

  /** A symbol of type t with this text is read as the number v: an int in decimal,
      and a constant in decimal without leading zeros, which would make it octal. */
  predicate ReadsAs(t: SymbolType, s: string, v: int) {
    && IsDecimal(s) && Decimal(s) == v && -TWO_63 <= v < TWO_63
    && (t == Int || (t == Unknown && (s == "0" || (if s[0] == '-' then s[1..] else s)[0] != '0')))
  }

  lemma ReadsAsParsed(t: SymbolType, s: string, v: int)
    requires ReadsAs(t, s, v)
    ensures ParseValue(s, t) == Signed(v)
  {
    hide ParseNumber, Decimal;
    if t == Unknown && s == "0" {
      ZeroIsParsed();
    } else {
      DecimalIsParsed(s, if t == Int then 10 else 0);
    }
  }

  predicate Relates(rel: Relation, a: int, b: int) {
    match rel
    case Equal => a == b
    case Unequal => a != b
    case Less => a < b
    case LessEq => a <= b
    case Greater => a > b
    case GreaterEq => a >= b
  }

  /** Ints and constants compare as numbers. */
  lemma NumbersCompare(env: Env, rel: Relation, l: Symbol, r: Symbol, a: int, b: int)
    requires ReadsAs(TypeOf(l), env(l).str, a) && ReadsAs(TypeOf(r), env(r).str, b)
    ensures Eval(env, Comp(rel, l, r)) == OfBool(Relates(rel, a, b))
  {
    ReadsAsParsed(TypeOf(l), env(l).str, a);
    ReadsAsParsed(TypeOf(r), env(r).str, b);
    hide ParseValue, ReadsAs;
  }

  /** Hexadecimal digits, with or without 0x. */
  predicate IsHex(s: string) {
    var digits := HexDigits(s);
    digits != "" && AreDigits(digits, 16)
  }

  function HexDigits(s: string): string {
    if |s| >= 2 && s[0] == '0' && (s[1] == 'x' || s[1] == 'X') then s[2..] else s
  }

  function Hexadecimal(s: string): nat
    requires IsHex(s)
  {
    ReadOn(HexDigits(s), 16, 0)
  }

  lemma HexIsParsed(s: string)
    requires IsHex(s) && Hexadecimal(s) < TWO_64
    ensures ParseValue(s, Hex) == Unsigned(Hexadecimal(s))
  {
    var digits := HexDigits(s);
    assert IsDigit(digits[0], 16) && s[0] != ' ' && s[0] != '-' && s[0] != '+';
    assert SkipSpaces(s) == s;
    DigitsMatch(digits[0], 16);
    DigitsAreRead(digits, 16);
    hide DigitsValue, ReadOn, SkipSpaces, DigitValue;
  }

  lemma Wrapped(v: nat)
    requires v < TWO_64
    ensures v % TWO_64 == v
  {
  }

  /** Hexes compare as numbers without sign. */
  lemma HexesCompare(env: Env, rel: Relation, l: Symbol, r: Symbol)
    requires TypeOf(l) == Hex && TypeOf(r) == Hex && IsHex(env(l).str) && IsHex(env(r).str)
    requires Hexadecimal(env(l).str) < TWO_64 && Hexadecimal(env(r).str) < TWO_64
    ensures Eval(env, Comp(rel, l, r)) == OfBool(Relates(rel, Hexadecimal(env(l).str), Hexadecimal(env(r).str)))
  {
    HexIsParsed(env(l).str);
    HexIsParsed(env(r).str);
    var a, b := Hexadecimal(env(l).str), Hexadecimal(env(r).str);
    Wrapped(a);
    Wrapped(b);
    hide ParseValue, IsHex, Hexadecimal;
    assert CompareSyms(env, l, r) == IntCmp(a, b);
    hide CompareSyms;
  }

  // ----- texts in lexicographic order -----

  /** a comes before b: where they first differ, a ends or has the lower character. */
  ghost predicate Before(a: string, b: string) {
    exists k :: 0 <= k <= |a| && DiffersAt(a, b, k)
  }

  predicate DiffersAt(a: string, b: string, k: nat)
    requires k <= |a|
  {
    k < |b| && a[..k] == b[..k] && (k == |a| || a[k] < b[k])
  }

  lemma {:induction false} StrCmpIsOrder(a: string, b: string)
    ensures (StrCmp(a, b) < 0 <==> Before(a, b)) && (StrCmp(a, b) > 0 <==> Before(b, a))
  {
    if a == "" || b == "" || a[0] != b[0] {
      FirstDiffers(a, b);
      FirstDiffers(b, a);
    } else {
      StrCmpIsOrder(a[1..], b[1..]);
      BeforeRest(a, b);
      BeforeRest(b, a);
    }
  }

  lemma PrefixStarts(a: string, b: string, k: nat)
    requires k <= |a| && k <= |b| && a[..k] == b[..k]
    ensures k > 0 ==> a[0] == b[0]
  {
    if k > 0 {
      assert a[..k][0] == a[0] && b[..k][0] == b[0];
    }
  }

  lemma FirstDiffers(a: string, b: string)
    requires a == "" || b == "" || a[0] != b[0]
    ensures Before(a, b) <==> b != "" && (a == "" || a[0] < b[0])
  {
    if b != "" && (a == "" || a[0] < b[0]) {
      assert DiffersAt(a, b, 0);
    }
    forall k | 0 <= k <= |a| && DiffersAt(a, b, k)
      ensures k == 0
    {
      PrefixStarts(a, b, k);
    }
  }

  lemma BeforeRest(a: string, b: string)
    requires a != "" && b != "" && a[0] == b[0]
    ensures Before(a, b) <==> Before(a[1..], b[1..])
  {
    if Before(a, b) {
      var k :| 0 <= k <= |a| && DiffersAt(a, b, k);
      assert a[..k][1..] == a[1..][..k - 1] && b[..k][1..] == b[1..][..k - 1];
      assert DiffersAt(a[1..], b[1..], k - 1);
    }
    if Before(a[1..], b[1..]) {
      var k :| 0 <= k <= |a[1..]| && DiffersAt(a[1..], b[1..], k);
      assert a[..k + 1] == [a[0]] + a[1..][..k] && b[..k + 1] == [b[0]] + b[1..][..k];
      assert DiffersAt(a, b, k + 1);
    }
  }

  ghost predicate RelatesTexts(rel: Relation, a: string, b: string) {
    match rel
    case Equal => a == b
    case Unequal => a != b
    case Less => Before(a, b)
    case LessEq => Before(a, b) || a == b
    case Greater => Before(b, a)
    case GreaterEq => Before(b, a) || a == b
  }

  /** Two strings compare in lexicographic order, and so do any two symbols one of
      which does not read as a number. */
  lemma TextsCompare(env: Env, rel: Relation, l: Symbol, r: Symbol)
    requires (TypeOf(l) == String && TypeOf(r) == String)
          || ParseValue(env(l).str, TypeOf(l)).Text? || ParseValue(env(r).str, TypeOf(r)).Text?
    ensures Eval(env, Comp(rel, l, r)) == OfBool(RelatesTexts(rel, env(l).str, env(r).str))
  {
    StrCmpIsOrder(env(l).str, env(r).str);
    StrCmpZero(env(l).str, env(r).str);
    hide Before, StrCmp, ParseValue;
  }

  // ----- bool and tristate symbols -----

  /** Two of them compare as n < m < y. */
  lemma LogicalsCompare(env: Env, rel: Relation, l: Symbol, r: Symbol)
    requires WellTyped(env) && IsLogical(l) && IsLogical(r)
    ensures Eval(env, Comp(rel, l, r)) == OfBool(Relates(rel, env(l).tri, env(r).tri))
  {
    assert ValueOk(l, env(l)) && ValueOk(r, env(r));
  }

  /** With the constants y, m and n they compare as texts, and m comes before n. */
  lemma LogicalAgainstConst(env: Env, rel: Relation, l: Symbol, c: Symbol)
    requires WellTyped(env) && IsLogical(l) && IsTriConst(c)
    ensures Eval(env, Comp(rel, l, c)) == OfBool(RelatesTexts(rel, TriName(env(l).tri), ConstText(c)))
  {
    assert ValueOk(l, env(l)) && ValueOk(c, env(c));
    NamesAreNotNumbers();
    TextsCompare(env, rel, l, c);
  }

  /** So a tristate at n is not less than m. */
  lemma NotLessThanM(env: Env, l: Symbol)
    requires WellTyped(env) && IsLogical(l)
    ensures Eval(env, Comp(Less, l, SymMod)) == NO
    ensures Eval(env, Comp(Less, l, SymNo)) == YES <==> env(l).tri == MOD
  {
    LogicalAgainstConst(env, Less, l, SymMod);
    LogicalAgainstConst(env, Less, l, SymNo);
    StrCmpIsOrder(TriName(env(l).tri), "m");
    StrCmpIsOrder(TriName(env(l).tri), "n");
    hide Before;
  }
}
