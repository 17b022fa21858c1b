/** The numeric parse at src/readpars.hpp:185-195: `stream >> x` into a
    double followed by the test that no character is left over. Like the
    stream, the model accumulates the characters of a decimal literal one at
    a time and converts them at the end; the whole token must be such a
    literal, its value is taken exactly, as a real, and a value that would
    overflow to infinity fails the extraction. */
module Numbers {
  import opened Wrappers
  import opened Text

  /** A character that can occur in a decimal literal. */
  predicate IsNumberChar(c: char)
  {
    IsDigit(c) || c == '.' || c == '-' || c == 'e' || c == 'E'
  }

  /** Where the recogniser stands in
      `[-] (digits [. [digits]] | . digits) [(e|E) [-] digits]`. */
  datatype Phase =
    | Start      // nothing read yet
    | Minus      // a leading minus
    | Whole      // one or more digits before any dot
    | BareDot    // a dot with no digit before it
    | Fraction   // a dot and at least one mantissa digit
    | ExpMark    // the `e` or `E`
    | ExpMinus   // a minus after the exponent mark
    | Exponent   // one or more exponent digits

  /** A literal may end here: a mantissa digit has been read and the
      exponent, if begun, has a digit. */
  predicate Accepting(p: Phase)
  {
    p == Whole || p == Fraction || p == Exponent
  }

  /** The phase after reading `c`, or None when `c` cannot continue the literal. */
  function Transition(p: Phase, c: char): Option<Phase>
  {
    match p
    case Start =>
      if c == '-' then Some(Minus) else if IsDigit(c) then Some(Whole) else if c == '.' then Some(BareDot) else None
    case Minus =>
      if IsDigit(c) then Some(Whole) else if c == '.' then Some(BareDot) else None
    case Whole =>
      if IsDigit(c) then Some(Whole) else if c == '.' then Some(Fraction) else if c == 'e' || c == 'E' then Some(ExpMark) else None
    case BareDot =>
      if IsDigit(c) then Some(Fraction) else None
    case Fraction =>
      if IsDigit(c) then Some(Fraction) else if c == 'e' || c == 'E' then Some(ExpMark) else None
    case ExpMark =>
      if c == '-' then Some(ExpMinus) else if IsDigit(c) then Some(Exponent) else None
    case ExpMinus =>
      if IsDigit(c) then Some(Exponent) else None
    case Exponent =>
      if IsDigit(c) then Some(Exponent) else None
  }

  /** The characters accumulated so far: the sign, the mantissa digits (with
      `scale` of them after the dot), and the exponent's sign and digits. */
  datatype Literal = Literal(neg: bool, digits: string, scale: nat, eneg: bool, expDigits: string)

  predicate WellFormed(a: Literal)
  {
    AllDigits(a.digits) && AllDigits(a.expDigits)
  }

  /** Record character `c`, which moved the recogniser into phase `q`. */
  function Record(q: Phase, c: char, a: Literal): (b: Literal)
    requires WellFormed(a)
    ensures WellFormed(b)
  {
    if c == '-' then (if q == Minus then a.(neg := true) else a.(eneg := true))
    else if !IsDigit(c) then a
    else if q == Whole then a.(digits := a.digits + [c])
    else if q == Fraction then a.(digits := a.digits + [c], scale := a.scale + 1)
    else a.(expDigits := a.expDigits + [c])
  }

  function Ten(k: nat): (p: nat)
    ensures p >= 1
  {
    if k == 0 then 1 else 10 * Ten(k - 1)
  }

  /** 10 raised to an integer power. */
  function Pow10(e: int): (r: real)
    ensures r > 0.0
  {
    if e >= 0 then Ten(e) as real else 1.0 / Ten(-e) as real
  }

  function Negate(neg: bool, x: real): real
  {
    if neg then -x else x
  }

  /** The exponent a sign and a run of digits denote. */
  function SignedDigits(neg: bool, s: string): int
    requires AllDigits(s)
  {
    if neg then -(DigitsValue(s) as int) else DigitsValue(s)
  }

  /** `m` times ten to the power `k`. */
  function Scale(m: int, k: int): real
  {
    m as real * Pow10(k)
  }

  /** The exact value of an accumulated literal. */
  function ValueOf(a: Literal): real
    requires WellFormed(a)
  {
    Negate(a.neg, Scale(DigitsValue(a.digits), SignedDigits(a.eneg, a.expDigits) - a.scale))
  }

  /** Recognise `t[i..]` from phase `p` with `a` accumulated so far. */
  function Recognise(t: string, i: nat, p: Phase, a: Literal): (r: Option<real>)
    requires i <= |t| && WellFormed(a)
    decreases |t| - i
  {
    if i == |t| then
      if Accepting(p) then Some(ValueOf(a)) else None
    else
      match Transition(p, t[i])
      case None => None
      case Some(q) => Recognise(t, i + 1, q, Record(q, t[i], a))
  }

  /** The exact value of the whole token read as
      `[-] (digits [. [digits]] | . digits) [(e|E) [-] digits]`;
      None when it is not such a literal (nothing could be parsed, or
      characters are left over). */
  function LiteralValue(t: string): Option<real>
  {
    Recognise(t, 0, Start, Literal(false, [], 0, false, []))
  }

  /** The least magnitude that rounding to nearest (ties to even) takes to
      infinity in IEEE-754 binary64: 2^1024 - 2^970, halfway between the
      largest finite double, (2^53 - 1) * 2^971, and 2^1024. */
  const OverflowBound: real := 179769313486231580793728971405303415079934132710037826936173778980444968292764750946649017977587207096330286416692887910946555547851940402630657488671505820681908902000708383676273854845817711531764475730270069855571366959622842914819860834936475292719074168444365510704342711559699508093042880177904174497792.0

  /** 2 raised to a natural power. */
  function Two(k: nat): nat
  {
    if k == 0 then 1 else 2 * Two(k - 1)
  }

  /** Powers of two multiply by adding exponents. */
  lemma {:induction false} TwoAdd(a: nat, b: nat)
    ensures Two(a + b) == Two(a) * Two(b)
    decreases b
  {
    if b > 0 {
      TwoAdd(a, b - 1);
      assert Two(a + b) == 2 * Two(a + (b - 1));
      assert Two(a) * Two(b) == Two(a) * (2 * Two(b - 1)) == 2 * (Two(a) * Two(b - 1));
    }
  }

  /** `TwoAdd` for powers whose values are known. */
  lemma TwoStep(a: nat, b: nat, x: nat, y: nat)
    requires Two(a) == x && Two(b) == y
    ensures Two(a + b) == x * y
  {
    TwoAdd(a, b);
  }

  lemma LessOne(x: int, y: int)
    ensures (x - 1) * y == x * y - y
  {
  }

  /** With an `m`-bit significand and top exponent `e + 1`, the number
      halfway between the largest finite value, `(2^m - 1) * 2^(e+1)`, and
      `2^(m+e+1)` is `2^(m+e+1) - 2^e`; binary64 has `m = 53`, `e = 970`. */
  lemma Midpoint(m: nat, e: nat)
    ensures (Two(m) - 1) * Two(e + 1) + Two(m + e + 1) == 2 * (Two(m + e + 1) - Two(e))
  {
    TwoAdd(m, e + 1);
    LessOne(Two(m), Two(e + 1));
    assert Two(e + 1) == 2 * Two(e);
  }

  /** The literal `OverflowBound` is `2^1024 - 2^970`. */
  lemma OverflowBoundValue()
    ensures OverflowBound == (Two(1024) - Two(970)) as real
  {
    assert Two(1) == 2;
    TwoStep(1, 1, 2, 2);
    TwoStep(2, 2, 4, 4);
    TwoStep(4, 4, 16, 16);
    TwoStep(8, 8, 256, 256);
    TwoStep(16, 16, 65536, 65536);
    TwoStep(32, 32, 4294967296, 4294967296);
    TwoStep(64, 64, 18446744073709551616, 18446744073709551616);
    TwoStep(128, 128, 340282366920938463463374607431768211456, 340282366920938463463374607431768211456);
    TwoStep(256, 256, 115792089237316195423570985008687907853269984665640564039457584007913129639936, 115792089237316195423570985008687907853269984665640564039457584007913129639936);
    TwoStep(512, 512, 13407807929942597099574024998205846127479365820592393377723561443721764030073546976801874298166903427690031858186486050853753882811946569946433649006084096, 13407807929942597099574024998205846127479365820592393377723561443721764030073546976801874298166903427690031858186486050853753882811946569946433649006084096);
    TwoStep(512, 256, 13407807929942597099574024998205846127479365820592393377723561443721764030073546976801874298166903427690031858186486050853753882811946569946433649006084096, 115792089237316195423570985008687907853269984665640564039457584007913129639936);
    TwoStep(768, 128, 1552518092300708935148979488462502555256886017116696611139052038026050952686376886330878408828646477950487730697131073206171580044114814391444287275041181139204454976020849905550265285631598444825262999193716468750892846853816057856, 340282366920938463463374607431768211456);
    TwoStep(896, 64, 528294531135665246352339784916516606518847326036121522127960709026673902556724859474417255887657187894674394993257128678882347559502685537250538978462939576908386683999005084168731517676426441053024232908211188404148028292751561738838396898767036476489538580897737998336, 18446744073709551616);
    TwoStep(960, 8, 9745314011399999080353382387875188310876226857595007526867906457212948690766426102465615065882010259225304916231408668183459169865203094046577987296312653419531277699956473029870789655490053648352799593479218378873685597925394874945746363615468965612827738803104277547081828589991914110976, 256);
    TwoStep(968, 2, 2494800386918399764570465891296048207584314075544321926878184053046514864836205082231197456865794626361678058555240619054965547485491992075923964747856039275400007091188857095646922151805453733978316695930679904991663513068901087986111069085560055196883901133594695052052948119037930012409856, 4);
  }

  /** `OverflowBound` is the `Midpoint` of binary64, whose significand has
      `m = 53` bits and whose top exponent is `e + 1 = 971`: twice the bound
      is the largest finite double, `(2^53 - 1) * 2^971`, plus `2^1024`. */
  lemma OverflowBoundMidpoint(m: nat, e: nat)
    requires m == 53 && e == 970
    ensures 2.0 * OverflowBound == ((Two(m) - 1) * Two(e + 1) + Two(m + e + 1)) as real
  {
    OverflowBoundValue();
    Midpoint(m, e);
  }

  /** The conversion to `double` stays finite. */
  predicate InRange(x: real)
  {
    -OverflowBound < x < OverflowBound
  }

  /** What `stream >> x` makes of a literal with exact value `x`: the value,
      or a failure when it is out of the range of `double`. */
  function Bounded(x: real): (r: Option<real>)
    ensures r.Some? <==> InRange(x)
    ensures r.Some? ==> r.value == x
  {
    if InRange(x) then Some(x) else None
  }

  /** `stream >> x` followed by the leftover check: the token must be a
      decimal literal whose value does not overflow a `double`. */
  function ParseNumber(t: string): (r: Option<real>)
    ensures r.Some? ==> InRange(r.value) && LiteralValue(t) == r
    ensures LiteralValue(t).Some? && InRange(LiteralValue(t).value) ==> r == LiteralValue(t)
  {
    match LiteralValue(t)
    case None => None
    case Some(x) => Bounded(x)
  }

  /** A recognised rest of the token ends in an accepting phase and holds
      only characters of decimal literals. */
  lemma {:induction false} RecogniseChars(t: string, i: nat, p: Phase, a: Literal)
    requires i <= |t| && WellFormed(a)
    ensures Recognise(t, i, p, a).Some? ==> (i < |t| || Accepting(p)) && forall k :: i <= k < |t| ==> IsNumberChar(t[k])
    decreases |t| - i
  {
    if i < |t| {
      match Transition(p, t[i])
      case None =>
      case Some(q) => RecogniseChars(t, i + 1, q, Record(q, t[i], a));
    }
  }

  /** A token that parses is non-empty and made of digits, dots, minus signs
      and exponent marks only. */
  lemma ParseNumberChars(t: string)
    ensures ParseNumber(t).Some? ==> t != [] && forall i :: 0 <= i < |t| ==> IsNumberChar(t[i])
  {
    RecogniseChars(t, 0, Start, Literal(false, [], 0, false, []));
  }

  /** The decimal rendering of an integer, with a leading minus when negative. */
  function IntToString(k: int): string
  {
    if k < 0 then "-" + NatToString(-k) else NatToString(k)
  }

  /** A non-empty run of digits to the end of the token, read from the start
      (after an optional minus) or within the whole part, adds those digits to
      the mantissa and ends in the accepting phase Whole. */
  lemma {:induction false} RecogniseDigits(t: string, i: nat, p: Phase, a: Literal)
    requires i <= |t| && WellFormed(a) && AllDigits(t[i..])
    requires p == Whole || ((p == Start || p == Minus) && i < |t|)
    ensures AllDigits(a.digits + t[i..])
    ensures Recognise(t, i, p, a) == Some(ValueOf(a.(digits := a.digits + t[i..])))
    decreases |t| - i
  {
    if i < |t| {
      assert IsDigit(t[i]) by { assert t[i..][0] == t[i]; }
      var rest := t[i + 1..];
      assert AllDigits(rest) by {
        forall k | 0 <= k < |rest| ensures IsDigit(rest[k]) {
          assert rest[k] == t[i..][k + 1];
        }
      }
      var b := Record(Whole, t[i], a);
      RecogniseDigits(t, i + 1, Whole, b);
      assert b.digits + t[i + 1..] == a.digits + t[i..];
    } else {
      assert a.digits + t[i..] == a.digits;
    }
  }

  /** The phase a digit leads to: the whole part, the fraction or the
      exponent, according to where the recogniser stands. */
  function DigitPhase(p: Phase): Phase
  {
    match p
    case Start | Minus | Whole => Whole
    case BareDot | Fraction => Fraction
    case ExpMark | ExpMinus | Exponent => Exponent
  }

  /** Digits `s` added to the part of the literal that phase `p` accumulates. */
  function Absorb(p: Phase, a: Literal, s: string): (b: Literal)
    requires WellFormed(a) && AllDigits(s)
    ensures WellFormed(b)
  {
    assert forall k :: 0 <= k < |a.digits + s| ==> (a.digits + s)[k] == if k < |a.digits| then a.digits[k] else s[k - |a.digits|];
    assert forall k :: 0 <= k < |a.expDigits + s| ==> (a.expDigits + s)[k] == if k < |a.expDigits| then a.expDigits[k] else s[k - |a.expDigits|];
    if p == Whole then a.(digits := a.digits + s)
    else if p == Fraction then a.(digits := a.digits + s, scale := a.scale + |s|)
    else a.(expDigits := a.expDigits + s)
  }

  /** A digit moves the recogniser into the phase digits lead to and is
      recorded there. */
  lemma DigitStep(t: string, i: nat, p: Phase, a: Literal)
    requires i < |t| && WellFormed(a) && IsDigit(t[i])
    ensures Recognise(t, i, p, a) == Recognise(t, i + 1, DigitPhase(p), Record(DigitPhase(p), t[i], a))
  {
  }

  /** Recording one digit and then absorbing the rest of a run is absorbing
      the whole run. */
  lemma AbsorbStep(q: Phase, a: Literal, c: char, rest: string)
    requires Accepting(q) && WellFormed(a) && IsDigit(c) && AllDigits(rest) && AllDigits([c] + rest)
    ensures Absorb(q, Record(q, c, a), rest) == Absorb(q, a, [c] + rest)
  {
    assert a.digits + [c] + rest == a.digits + ([c] + rest);
    assert a.expDigits + [c] + rest == a.expDigits + ([c] + rest);
  }

  /** A run of digits `t[i..j]` read from any phase (a non-empty run unless
      the phase already accepts) leads to the phase digits lead to, with the
      run added to the part of the literal that phase accumulates. */
  lemma {:induction false} DigitRun(t: string, i: nat, j: nat, p: Phase, a: Literal)
    requires i <= j <= |t| && WellFormed(a) && AllDigits(t[i..j])
    requires Accepting(p) || i < j
    ensures Recognise(t, i, p, a) == Recognise(t, j, DigitPhase(p), Absorb(DigitPhase(p), a, t[i..j]))
    decreases j - i
  {
    var q := DigitPhase(p);
    if i < j {
      var run := t[i..j];
      var rest := t[i + 1..j];
      assert run == [t[i]] + rest;
      assert IsDigit(t[i]) by { assert run[0] == t[i]; }
      assert AllDigits(rest) by {
        forall k | 0 <= k < |rest| ensures IsDigit(rest[k]) {
          assert rest[k] == run[k + 1];
        }
      }
      DigitStep(t, i, p, a);
      var b := Record(q, t[i], a);
      DigitRun(t, i + 1, j, q, b);
      AbsorbStep(q, a, t[i], rest);
    } else {
      assert t[i..j] == [] && a.digits + [] == a.digits && a.expDigits + [] == a.expDigits;
    }
  }

  /** A literal with no fraction and no exponent denotes its digits. */
  lemma PlainValue(neg: bool, s: string)
    requires AllDigits(s)
    ensures ValueOf(Literal(neg, s, 0, false, [])) == Negate(neg, DigitsValue(s) as real)
  {
    assert DigitsValue([]) == 0;
    assert Pow10(0) == 1.0;
  }

  /** A run of digits parses to the number it denotes, unless that number
      overflows a `double`, when the parse fails. */
  lemma DigitsParse(s: string)
    requires s != [] && AllDigits(s)
    ensures ParseNumber(s) == Bounded(DigitsValue(s) as real)
  {
    var m := Literal(false, [], 0, false, []);
    assert s[0..] == s;
    RecogniseDigits(s, 0, Start, m);
    assert m.(digits := m.digits + s[0..]) == Literal(false, s, 0, false, []);
    PlainValue(false, s);
  }

  /** A minus followed by a run of digits parses to the negated number, or
      fails when that overflows. */
  lemma NegativeDigitsParse(s: string)
    requires s != [] && AllDigits(s)
    ensures ParseNumber("-" + s) == Bounded(-(DigitsValue(s) as real))
  {
    var t := "-" + s;
    var m := Literal(true, [], 0, false, []);
    assert LiteralValue(t) == Recognise(t, 1, Minus, m) by {
      assert t[0] == '-';
    }
    assert t[1..] == s;
    RecogniseDigits(t, 1, Minus, m);
    assert m.(digits := m.digits + t[1..]) == Literal(true, s, 0, false, []);
    PlainValue(true, s);
  }

  /** The digits of `u` followed by those of `v` denote `u`'s number shifted
      left by `|v|` places, plus `v`'s number. */
  lemma {:induction false} DigitsAppend(u: string, v: string)
    requires AllDigits(u) && AllDigits(v)
    ensures AllDigits(u + v)
    ensures DigitsValue(u + v) == DigitsValue(u) * Ten(|v|) + DigitsValue(v)
    decreases |v|
  {
    DigitsJoin(u, v);
    if v == [] {
      assert u + v == u;
    } else {
      var v', c := v[..|v| - 1], v[|v| - 1];
      DigitsJoin(v', [c]);
      assert v == v' + [c];
      DigitsAppend(u, v');
      var w := u + v;
      assert w[..|w| - 1] == u + v' && w[|w| - 1] == c;
      assert v[..|v| - 1] == v';
      ShiftDigit(DigitsValue(w), DigitsValue(v), DigitsValue(u), DigitsValue(v'), Ten(|v'|), DigitValue(c));
    }
  }

  /** Two strings are both digit strings exactly when their concatenation is. */
  lemma DigitsJoin(u: string, v: string)
    ensures AllDigits(u + v) <==> AllDigits(u) && AllDigits(v)
  {
    if AllDigits(u + v) {
      forall k | 0 <= k < |u| ensures IsDigit(u[k]) {
        assert u[k] == (u + v)[k];
      }
      forall k | 0 <= k < |v| ensures IsDigit(v[k]) {
        assert v[k] == (u + v)[|u| + k];
      }
    }
  }

  /** Appending digit `d` to both `u + v'` and `v'` multiplies the shift
      by ten. */
  lemma ShiftDigit(w: int, v: int, x: int, y: int, t: int, d: int)
    requires w == 10 * (x * t + y) + d && v == 10 * y + d
    ensures w == x * (10 * t) + v
  {
    assert 10 * (x * t) == x * (10 * t);
  }

  /** A token that is digits, a dot and digits is recognised as the digits
      of both parts, scaled down by the number of digits after the dot. */
  lemma DecimalAt(t: string, w: nat)
    requires 0 < w && w + 1 < |t| && t[w] == '.' && AllDigits(t[0..w]) && AllDigits(t[w + 1..|t|])
    ensures AllDigits(t[0..w] + t[w + 1..|t|])
    ensures LiteralValue(t) == Some(Scale(DigitsValue(t[0..w] + t[w + 1..|t|]), -(|t| - w - 1)))
  {
    var whole, fraction := t[0..w], t[w + 1..|t|];
    var m := Literal(false, [], 0, false, []);
    DigitRun(t, 0, w, Start, m);
    var a := Absorb(Whole, m, whole);
    assert a == Literal(false, whole, 0, false, []);
    assert Recognise(t, w, Whole, a) == Recognise(t, w + 1, Fraction, a);
    DigitRun(t, w + 1, |t|, Fraction, a);
    var b := Absorb(Fraction, a, fraction);
    assert b == Literal(false, whole + fraction, |fraction|, false, []);
    assert LiteralValue(t) == Recognise(t, |t|, Fraction, b);
    assert SignedDigits(false, []) == 0;
  }

  /** `whole.fraction` is recognised as the digits of both parts, scaled
      down by the number of fraction digits. */
  lemma DecimalLiteral(whole: string, fraction: string)
    requires whole != [] && fraction != [] && AllDigits(whole) && AllDigits(fraction)
    ensures AllDigits(whole + fraction)
    ensures LiteralValue(whole + "." + fraction) == Some(Scale(DigitsValue(whole + fraction), -(|fraction| as int)))
  {
    var t := whole + "." + fraction;
    var w := |whole|;
    assert t[0..w] == whole && t[w] == '.' && t[w + 1..|t|] == fraction;
    DecimalAt(t, w);
  }

  /** A whole number shifted left past `p`'s digits plus a remainder, times
      one over `p`, is the whole number plus the remainder over `p`. */
  lemma ShiftBack(n: int, whole: int, fraction: int, t: nat)
    requires t > 0 && n == whole * t + fraction
    ensures n as real * (1.0 / t as real) == whole as real + fraction as real / t as real
  {
    var p, x, y := t as real, whole as real, fraction as real;
    assert n as real == x * p + y;
    assert (x * p + y) * (1.0 / p) == x * (p / p) + y / p;
  }

  /** The number written `whole.fraction` with `f` digits after the dot:
      the whole number plus the fraction over ten to the power `f`. */
  function Decimal(whole: int, fraction: int, f: nat): real
  {
    whole as real + fraction as real / Ten(f) as real
  }

  /** Shifting `whole` left past `f` digits, adding `fraction` and scaling
      back down gives the whole number plus the fraction. */
  lemma FractionValue(n: int, whole: int, fraction: int, f: nat)
    requires n == whole * Ten(f) + fraction
    ensures Scale(n, -(f as int)) == Decimal(whole, fraction, f)
  {
    assert Pow10(-(f as int)) == 1.0 / Ten(f) as real;
    ShiftBack(n, whole, fraction, Ten(f));
  }

  /** The digits of both parts, scaled down by the number of fraction
      digits, are the whole number plus the fraction. */
  lemma DecimalValue(whole: string, fraction: string)
    requires AllDigits(whole) && AllDigits(fraction)
    ensures AllDigits(whole + fraction)
    ensures Scale(DigitsValue(whole + fraction), -(|fraction| as int)) == Decimal(DigitsValue(whole), DigitsValue(fraction), |fraction|)
  {
    DigitsAppend(whole, fraction);
    FractionValue(DigitsValue(whole + fraction), DigitsValue(whole), DigitsValue(fraction), |fraction|);
  }

  /** `whole.fraction` parses to the whole number plus the fraction's digits
      over ten to the power of their count, or fails when that overflows. */
  lemma DecimalParse(whole: string, fraction: string)
    requires whole != [] && fraction != [] && AllDigits(whole) && AllDigits(fraction)
    ensures ParseNumber(whole + "." + fraction) == Bounded(Decimal(DigitsValue(whole), DigitsValue(fraction), |fraction|))
  {
    DecimalLiteral(whole, fraction);
    DecimalValue(whole, fraction);
  }

  /** A token that starts with digits, an `e` and an optional minus is
      recognised as the rest from the exponent mark or its minus, with the
      digits as the mantissa. */
  lemma ExponentHead(t: string, w: nat, x: nat, eneg: bool)
    requires 0 < w && x == w + 1 + (if eneg then 1 else 0) && x <= |t|
    requires AllDigits(t[0..w]) && t[w] == 'e' && (eneg ==> t[w + 1] == '-')
    ensures LiteralValue(t) == Recognise(t, x, if eneg then ExpMinus else ExpMark, Literal(false, t[0..w], 0, eneg, []))
  {
    var m := Literal(false, [], 0, false, []);
    DigitRun(t, 0, w, Start, m);
    var a := Absorb(Whole, m, t[0..w]);
    assert a == Literal(false, t[0..w], 0, false, []);
    assert Recognise(t, w, Whole, a) == Recognise(t, w + 1, ExpMark, a);
    if eneg {
      assert Recognise(t, w + 1, ExpMark, a) == Recognise(t, x, ExpMinus, a.(eneg := true));
    }
  }

  /** Exponent digits after the exponent mark or its minus complete the
      literal: the mantissa times ten to the power of the signed exponent. */
  lemma ExponentTail(t: string, x: nat, eneg: bool, digits: string)
    requires x < |t| && AllDigits(digits) && AllDigits(t[x..|t|])
    ensures Recognise(t, x, if eneg then ExpMinus else ExpMark, Literal(false, digits, 0, eneg, []))
      == Some(Scale(DigitsValue(digits), SignedDigits(eneg, t[x..|t|])))
  {
    var q := if eneg then ExpMinus else ExpMark;
    var b := Literal(false, digits, 0, eneg, []);
    DigitRun(t, x, |t|, q, b);
    var c := Absorb(Exponent, b, t[x..|t|]);
    assert c == Literal(false, digits, 0, eneg, t[x..|t|]);
    var k := SignedDigits(eneg, t[x..|t|]);
    assert k - 0 == k;
  }

  /** A token that is digits, an `e`, an optional minus and digits is
      recognised as the first digits' number times ten to the power of the
      signed exponent. */
  lemma ExponentAt(t: string, w: nat, x: nat, eneg: bool)
    requires 0 < w && x == w + 1 + (if eneg then 1 else 0) && x < |t|
    requires AllDigits(t[0..w]) && t[w] == 'e' && (eneg ==> t[w + 1] == '-') && AllDigits(t[x..|t|])
    ensures LiteralValue(t) == Some(Scale(DigitsValue(t[0..w]), SignedDigits(eneg, t[x..|t|])))
  {
    ExponentHead(t, w, x, eneg);
    ExponentTail(t, x, eneg, t[0..w]);
  }

  /** `digits e [-] exponent` parses to the digits' number times ten to the
      power of the exponent, negative when the minus is there, or fails when
      that overflows. */
  lemma ExponentParse(digits: string, eneg: bool, exponent: string)
    requires digits != [] && exponent != [] && AllDigits(digits) && AllDigits(exponent)
    ensures ParseNumber(digits + "e" + (if eneg then "-" else "") + exponent)
      == Bounded(Scale(DigitsValue(digits), SignedDigits(eneg, exponent)))
  {
    var sign := if eneg then "-" else "";
    var t := digits + "e" + sign + exponent;
    var w := |digits|;
    var x := w + 1 + |sign|;
    assert t[0..w] == digits && t[w] == 'e' && t[x..|t|] == exponent;
    assert eneg ==> t[w + 1] == '-';
    ExponentAt(t, w, x, eneg);
  }

  /** Every integer within the range of `double` written in decimal parses
      back to itself; any other fails to parse. */
  lemma IntegerRoundTrip(k: int)
    ensures ParseNumber(IntToString(k)) == Bounded(k as real)
  {
    var n: nat := if k < 0 then -k else k;
    NatToStringRoundTrip(n);
    if k < 0 {
      NegativeDigitsParse(NatToString(n));
    } else {
      DigitsParse(NatToString(n));
    }
  }
}
