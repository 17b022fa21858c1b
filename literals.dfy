/** The decimal literals `stream >> x` reads (src/readpars.hpp:194), spelled
    out part by part, and the value each one parses to. */
module Literals {
  import opened Wrappers
  import opened Text
  import opened Numbers

  /** A literal `[-] (digits [. [digits]] | . digits) [(e|E) [-] digits]`:
      the sign, the whole part, whether a dot follows, the fraction part,
      the exponent mark (empty when there is no exponent), the exponent's
      sign and its digits. */
  datatype Shape = Shape(neg: bool, whole: string, dot: bool, fraction: string, mark: string, eneg: bool, exponent: string)

  /** The parts are digit strings; the mantissa has a digit; a fraction
      follows a dot; an exponent mark is `e` or `E` and is followed by
      digits, and only an exponent has a sign. */
  predicate WellShaped(sh: Shape)
  {
    AllDigits(sh.whole) && AllDigits(sh.fraction) && AllDigits(sh.exponent)
    && (sh.whole != [] || sh.fraction != [])
    && (sh.fraction != [] ==> sh.dot)
    && (sh.mark == "" || sh.mark == "e" || sh.mark == "E")
    && (sh.mark == "" ==> !sh.eneg && sh.exponent == [])
    && (sh.mark != "" ==> sh.exponent != [])
  }

  /** The character `c` when `b` holds, nothing otherwise. */
  function Optional(b: bool, c: char): string
  {
    if b then [c] else []
  }

  /** The text of the mantissa: sign, whole part, dot and fraction. */
  function MantissaText(sh: Shape): string
  {
    Optional(sh.neg, '-') + sh.whole + Optional(sh.dot, '.') + sh.fraction
  }

  /** The text of the exponent: mark, sign and digits. */
  function ExponentText(sh: Shape): string
  {
    sh.mark + Optional(sh.eneg, '-') + sh.exponent
  }

  /** The literal's text. */
  function Spell(sh: Shape): string
  {
    MantissaText(sh) + ExponentText(sh)
  }

  /** The number the literal denotes: the mantissa's digits read as one
      number, times ten to the exponent less the count of fraction digits,
      negated after a leading minus. */
  function Exact(sh: Shape): real
    requires WellShaped(sh)
  {
    DigitsJoin(sh.whole, sh.fraction);
    Negate(sh.neg, Scale(DigitsValue(sh.whole + sh.fraction), SignedDigits(sh.eneg, sh.exponent) - |sh.fraction|))
  }

  /** A leading minus is recorded as the sign. */
  lemma SignAt(t: string, neg: bool)
    requires neg ==> |t| > 0 && t[0] == '-'
    ensures LiteralValue(t) == Recognise(t, if neg then 1 else 0, if neg then Minus else Start, Literal(neg, [], 0, false, []))
  {
  }

  /** The digits of the whole part move the recogniser into Whole and
      become the mantissa; with no whole part nothing changes. */
  lemma WholeAt(t: string, a: nat, b: nat, p: Phase, neg: bool)
    requires a <= b <= |t| && AllDigits(t[a..b]) && (p == Start || p == Minus)
    ensures Recognise(t, a, p, Literal(neg, [], 0, false, []))
      == Recognise(t, b, if a < b then Whole else p, Literal(neg, t[a..b], 0, false, []))
  {
    if a < b {
      DigitRun(t, a, b, p, Literal(neg, [], 0, false, []));
      assert [] + t[a..b] == t[a..b];
    } else {
      assert t[a..b] == [];
    }
  }

  /** A dot after the whole part starts the fraction; a dot with no whole
      part before it is a bare dot. */
  lemma DotAt(t: string, b: nat, p: Phase, lit: Literal, dot: bool)
    requires b <= |t| && WellFormed(lit) && (p == Start || p == Minus || p == Whole)
    requires dot ==> b < |t| && t[b] == '.'
    ensures Recognise(t, b, p, lit)
      == Recognise(t, b + (if dot then 1 else 0), if !dot then p else if p == Whole then Fraction else BareDot, lit)
  {
  }

  /** The fraction's digits are appended to the mantissa and counted in its
      scale. */
  lemma FractionAt(t: string, c: nat, d: nat, p: Phase, lit: Literal)
    requires c <= d <= |t| && WellFormed(lit) && AllDigits(t[c..d])
    requires p == Fraction || (p == BareDot && c < d)
    ensures Recognise(t, c, p, lit)
      == Recognise(t, d, Fraction, lit.(digits := lit.digits + t[c..d], scale := lit.scale + (d - c)))
  {
    DigitRun(t, c, d, p, lit);
  }

  /** With the mantissa read, the end of the token or an exponent completes
      the literal. */
  lemma ExponentEnd(t: string, d: nat, g: nat, p: Phase, lit: Literal, exp: bool, eneg: bool)
    requires d <= g <= |t| && WellFormed(lit) && (p == Whole || p == Fraction) && !lit.eneg && lit.expDigits == []
    requires !exp ==> !eneg && d == |t|
    requires exp ==> d < |t| && (t[d] == 'e' || t[d] == 'E') && g == d + 1 + (if eneg then 1 else 0) && g < |t|
    requires eneg ==> t[d + 1] == '-'
    requires AllDigits(t[g..|t|])
    ensures WellFormed(lit.(eneg := eneg, expDigits := t[g..|t|]))
    ensures Recognise(t, d, p, lit) == Some(ValueOf(lit.(eneg := eneg, expDigits := t[g..|t|])))
  {
    if exp {
      var b := lit.(eneg := eneg);
      var q := if eneg then ExpMinus else ExpMark;
      assert Recognise(t, d, p, lit) == Recognise(t, d + 1, ExpMark, lit);
      assert Recognise(t, d + 1, ExpMark, lit) == Recognise(t, g, q, b);
      DigitRun(t, g, |t|, q, b);
      assert [] + t[g..|t|] == t[g..|t|];
    } else {
      assert t[g..|t|] == [] && lit.(eneg := eneg, expDigits := t[g..|t|]) == lit;
    }
  }

  /** The mantissa `[-] (digits [. [digits]] | . digits)` at positions
      `a <= b <= c <= d` of the token is read into the literal's sign,
      digits and scale, ending in Fraction after a dot and in Whole
      otherwise. */
  lemma MantissaAt(t: string, neg: bool, a: nat, b: nat, dot: bool, c: nat, d: nat)
    requires a == (if neg then 1 else 0) && a <= b && c == b + (if dot then 1 else 0) && c <= d <= |t|
    requires neg ==> t[0] == '-'
    requires dot ==> t[b] == '.'
    requires AllDigits(t[a..b]) && AllDigits(t[c..d])
    requires a < b || c < d
    requires c < d ==> dot
    ensures AllDigits(t[a..b] + t[c..d])
    ensures LiteralValue(t)
      == Recognise(t, d, if dot then Fraction else Whole, Literal(neg, t[a..b] + t[c..d], d - c, false, []))
  {
    DigitsJoin(t[a..b], t[c..d]);
    var p1 := if neg then Minus else Start;
    SignAt(t, neg);
    WholeAt(t, a, b, p1, neg);
    var p2 := if a < b then Whole else p1;
    var lit := Literal(neg, t[a..b], 0, false, []);
    DotAt(t, b, p2, lit, dot);
    if dot {
      var p3 := if p2 == Whole then Fraction else BareDot;
      FractionAt(t, c, d, p3, lit);
    } else {
      assert t[c..d] == [] && t[a..b] + t[c..d] == t[a..b];
    }
  }

  /** Where the parts of the mantissa lie in its text. */
  lemma MantissaSlices(sh: Shape)
    ensures var u, a := MantissaText(sh), if sh.neg then 1 else 0;
      var b := a + |sh.whole|; var c := b + (if sh.dot then 1 else 0);
      |u| == c + |sh.fraction| && u[a..b] == sh.whole && u[c..|u|] == sh.fraction
      && (sh.neg ==> u[0] == '-') && (sh.dot ==> u[b] == '.')
  {
  }

  /** Where the parts of the exponent lie in its text. */
  lemma ExponentSlices(sh: Shape)
    requires sh.mark == "" || |sh.mark| == 1
    ensures var v, g := ExponentText(sh), |sh.mark| + (if sh.eneg then 1 else 0);
      |v| == g + |sh.exponent| && v[g..|v|] == sh.exponent
      && (sh.mark != "" ==> v[0] == sh.mark[0]) && (sh.eneg && sh.mark != "" ==> v[1] == '-')
  {
  }

  /** A slice of the first part of a concatenation is a slice of that part. */
  lemma LeftSlice(u: string, v: string, i: nat, j: nat)
    requires i <= j <= |u|
    ensures (u + v)[i..j] == u[i..j]
  {
  }

  /** A slice past the first part of a concatenation is a slice of the second. */
  lemma RightSlice(u: string, v: string, i: nat)
    requires i <= |v|
    ensures (u + v)[|u| + i..|u| + |v|] == v[i..|v|]
  {
  }

  /** A literal laid out at positions `a <= b <= c <= d <= g` of a token
      parses to the number it denotes. */
  lemma ShapeAt(t: string, sh: Shape, a: nat, b: nat, c: nat, d: nat, g: nat)
    requires WellShaped(sh)
    requires a == (if sh.neg then 1 else 0) && b == a + |sh.whole| && c == b + (if sh.dot then 1 else 0)
    requires d == c + |sh.fraction| && g == d + |sh.mark| + (if sh.eneg then 1 else 0) && |t| == g + |sh.exponent|
    requires t[a..b] == sh.whole && t[c..d] == sh.fraction && t[g..|t|] == sh.exponent
    requires sh.neg ==> t[0] == '-'
    requires sh.dot ==> t[b] == '.'
    requires sh.mark != "" ==> t[d] == sh.mark[0]
    requires sh.eneg ==> t[d + 1] == '-'
    ensures LiteralValue(t) == Some(Exact(sh))
  {
    MantissaAt(t, sh.neg, a, b, sh.dot, c, d);
    var lit := Literal(sh.neg, sh.whole + sh.fraction, |sh.fraction|, false, []);
    ExponentEnd(t, d, g, if sh.dot then Fraction else Whole, lit, sh.mark != "", sh.eneg);
    assert lit.(eneg := sh.eneg, expDigits := t[g..|t|]) == Literal(sh.neg, sh.whole + sh.fraction, |sh.fraction|, sh.eneg, sh.exponent);
  }

  /** Every literal of the grammar parses to the number it denotes, or
      fails when that number overflows a `double`. */
  lemma ShapeParse(sh: Shape)
    requires WellShaped(sh)
    ensures ParseNumber(Spell(sh)) == Bounded(Exact(sh))
  {
    var u, v, t := MantissaText(sh), ExponentText(sh), Spell(sh);
    var a := if sh.neg then 1 else 0;
    var b := a + |sh.whole|;
    var c := b + (if sh.dot then 1 else 0);
    var d := c + |sh.fraction|;
    var g := d + |sh.mark| + (if sh.eneg then 1 else 0);
    MantissaSlices(sh);
    ExponentSlices(sh);
    LeftSlice(u, v, a, b);
    LeftSlice(u, v, c, d);
    RightSlice(u, v, g - d);
    if sh.neg {
      assert t[0] == u[0];
    }
    if sh.dot {
      assert t[b] == u[b];
    }
    if sh.mark != "" {
      assert t[d] == v[0];
      if sh.eneg {
        assert t[d + 1] == v[1];
      }
    }
    ShapeAt(t, sh, a, b, c, d, g);
  }

  /** A minus sign out of place, alone or doubled fails to parse. */
  lemma RejectedSigns()
    ensures ParseNumber("1-") == None && ParseNumber("-") == None
    ensures ParseNumber("--1") == None && ParseNumber("1e-") == None
  {
  }

  /** A lone dot, a second dot, a dot in the exponent or a dot with no
      digits before the exponent fails to parse. */
  lemma RejectedDots()
    ensures ParseNumber(".") == None && ParseNumber("1.2.3") == None
    ensures ParseNumber("1e5.0") == None && ParseNumber(".e5") == None
  {
  }

  /** An exponent mark without a mantissa or without digits, hexadecimal
      and the spelling of infinity fail to parse. */
  lemma RejectedWords()
    ensures ParseNumber("1e") == None && ParseNumber("e5") == None
    ensures ParseNumber("0x10") == None && ParseNumber("inf") == None
  {
  }
}
