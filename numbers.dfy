/**
 * The numbers of the grammars: Spirit's `double_` restricted to signed decimals, and the
 * range check `check_RGBA_component` / `check_stop_offset` attached to it as a semantic
 * action. Values are exact reals.
 */
module Numbers {
  import opened Lexing

  function Pow10(n: nat): (r: nat)
    ensures r >= 1
  {
    if n == 0 then 1 else 10 * Pow10(n - 1)
  }

  /** `x` divided by ten `k` times: the scaling by a power of ten that turns the accumulated
      digits into the value once `k` of them were fraction digits. */
  function Shift(x: real, k: nat): (r: real)
    ensures x >= 0.0 ==> r >= 0.0
  {
    if k == 0 then x else Shift(x, k - 1) / 10.0
  }

  function DigitValue(c: char): (v: nat)
    requires IsDigit(c)
    ensures v < 10
  {
    c as int - '0' as int
  }

  /** The end of the run of decimal digits that starts at `pos`. */
  function DigitRun(s: string, pos: nat): (e: nat)
    requires pos <= |s|
    ensures pos <= e <= |s|
    decreases |s| - pos
  {
    if pos < |s| && IsDigit(s[pos]) then DigitRun(s, pos + 1) else pos
  }

  /** The run holds digits only, and stops at a non-digit or the end. */
  lemma {:induction false} DigitRunSpec(s: string, pos: nat)
    requires pos <= |s|
    ensures AllDigits(s, pos, DigitRun(s, pos))
    ensures DigitRun(s, pos) == |s| || !IsDigit(s[DigitRun(s, pos)])
    decreases |s| - pos
  {
    if pos < |s| && IsDigit(s[pos]) {
      DigitRunSpec(s, pos + 1);
    }
  }

  /** A run of digits that stops at a non-digit or the end is read up to that point. */
  lemma {:induction false} DigitRunStops(s: string, pos: nat, e: nat)
    requires pos <= e <= |s| && AllDigits(s, pos, e)
    requires e == |s| || !IsDigit(s[e])
    ensures DigitRun(s, pos) == e
    decreases e - pos
  {
    if pos < e {
      DigitRunStops(s, pos + 1, e);
    }
  }

  predicate AllDigits(s: string, from: nat, to: nat)
    requires from <= to <= |s|
  {
    forall i | from <= i < to :: IsDigit(s[i])
  }

  /** The accumulation the real parser performs while it reads digits: for each digit,
      left to right, `acc := acc * 10 + digit`. */
  function Accumulate(s: string, from: nat, to: nat, acc: nat): nat
    requires from <= to <= |s| && AllDigits(s, from, to)
    decreases (to as int) - (from as int)
  {
    if from == to then acc else Accumulate(s, from + 1, to, acc * 10 + DigitValue(s[from]))
  }

  /** An optional sign: whether it is `-`, and the position after it. */
  function SignAt(s: string, p: nat): (r: (bool, nat))
    requires p <= |s|
    ensures r.1 == p || (r.1 == p + 1 && p < |s| && (s[p] == '+' || s[p] == '-'))
  {
    if p < |s| && s[p] == '-' then (true, p + 1)
    else if p < |s| && s[p] == '+' then (false, p + 1)
    else (false, p)
  }

  function Signed(neg: bool, v: real): real {
    if neg then -v else v
  }


  /** The unsigned part of a real number: digits optionally followed by `.` and more
      digits, or `.` followed by at least one digit. A trailing dot (`1.`) and a leading
      dot (`.5`) are both accepted. All digits go into one accumulator, which is then
      scaled down by the number of fraction digits. */
  function Unsigned(s: string, q: nat): (r: Result<real>)
    requires q <= |s|
    ensures r.Success? ==> q < r.pos <= |s| && r.value >= 0.0
  {
    var e := DigitRun(s, q);
    DigitRunSpec(s, q);
    var n := Accumulate(s, q, e, 0);
    if e < |s| && s[e] == '.' then
      var f := DigitRun(s, e + 1);
      DigitRunSpec(s, e + 1);
      if e == q && f == e + 1 then Failure
      else Success(Shift(Accumulate(s, e + 1, f, n) as real, f - e - 1), f)
    else if e == q then Failure
    else Success(n as real, e)
  }

  /** `double_` for the inputs modelled: skip spaces, an optional sign, the unsigned part. */
  function Double(s: string, pos: nat): (r: Result<real>)
    requires pos <= |s|
    ensures r.Success? ==> SkipSpace(s, pos) < r.pos <= |s|
  {
    var (neg, q) := SignAt(s, SkipSpace(s, pos));
    match Unsigned(s, q)
    case Failure => Failure
    case Success(v, e) => Success(Signed(neg, v), e)
  }

  /** `check_RGBA_component` and `check_stop_offset`: the value lies in [0, 1]. */
  predicate InUnitRange(v: real) {
    0.0 <= v <= 1.0
  }

  /** `double_[check]`: a number that the semantic action rejects unless it lies in [0, 1].
      A rejected number fails the match; it is never clamped. */
  function UnitDouble(s: string, pos: nat): (r: Result<real>)
    requires pos <= |s|
    ensures r.Success? ==> InUnitRange(r.value) && r == Double(s, pos)
    ensures Double(s, pos).Success? && InUnitRange(Double(s, pos).value) ==> r.Success?
  {
    match Double(s, pos)
    case Failure => Failure
    case Success(v, p) => if InUnitRange(v) then Success(v, p) else Failure
  }

  // ---------------------------------------------------------------------------------
  // Decimal literals as written, their text and their value.

  /** The value of a digit string, most significant digit first. */
  function DigitsValue(t: string): nat
    requires forall i | 0 <= i < |t| :: IsDigit(t[i])
  {
    if t == [] then 0 else DigitValue(t[0]) * Pow10(|t| - 1) + DigitsValue(t[1..])
  }

  datatype SignMark = NoSign | Plus | Minus

  /** A decimal literal: optional sign, integer digits, optional dot and fraction digits. */
  datatype Decimal = Decimal(sign: SignMark, whole: string, dot: bool, frac: string)

  predicate DecimalWellFormed(d: Decimal) {
    && (forall i | 0 <= i < |d.whole| :: IsDigit(d.whole[i]))
    && (forall i | 0 <= i < |d.frac| :: IsDigit(d.frac[i]))
    && (!d.dot ==> d.frac == [])
    && (|d.whole| > 0 || |d.frac| > 0)
  }

  function SignText(m: SignMark): string {
    match m
    case NoSign => ""
    case Plus => "+"
    case Minus => "-"
  }

  function DecimalText(d: Decimal): string {
    SignText(d.sign) + d.whole + (if d.dot then "." + d.frac else "")
  }

  function DecimalValue(d: Decimal): real
    requires DecimalWellFormed(d)
  {
    Signed(d.sign == Minus,
           DigitsValue(d.whole) as real + Shift(DigitsValue(d.frac) as real, |d.frac|))
  }

  /** The character at `e` (if any) cannot extend the number that ends there. */
  predicate DecimalEnds(s: string, e: nat, d: Decimal) {
    e >= |s| || (!IsDigit(s[e]) && (d.dot || s[e] != '.'))
  }

  lemma {:induction false} DecimalTextStart(d: Decimal)
    requires DecimalWellFormed(d)
    ensures |DecimalText(d)| > 0 && !IsSpace(DecimalText(d)[0])
  {
    if d.sign == NoSign {
      if |d.whole| > 0 {
        assert DecimalText(d)[0] == d.whole[0];
      } else {
        assert DecimalText(d)[0] == '.';
      }
    }
  }

  lemma {:induction false} AccumulateValue(s: string, from: nat, to: nat, acc: nat)
    requires from <= to <= |s| && AllDigits(s, from, to)
    ensures Accumulate(s, from, to, acc) == acc * Pow10(to - from) + DigitsValue(s[from..to])
    decreases (to as int) - (from as int)
  {
    if from < to {
      var d := DigitValue(s[from]);
      AccumulateValue(s, from + 1, to, acc * 10 + d);
      DigitsHead(s, from, to);
      Regroup(acc, d, Pow10(to - from - 1), DigitsValue(s[from + 1..to]));
    }
  }

  /** The leading digit of a run is worth its value times the power of ten of its place. */
  lemma {:induction false} DigitsHead(s: string, from: nat, to: nat)
    requires from < to <= |s| && AllDigits(s, from, to)
    ensures DigitsValue(s[from..to])
         == DigitValue(s[from]) * Pow10(to - from - 1) + DigitsValue(s[from + 1..to])
  {
    assert s[from..to][0] == s[from];
    assert s[from..to][1..] == s[from + 1..to];
  }

  lemma {:induction false} Regroup(a: nat, d: nat, x: nat, r: nat)
    ensures (a * 10 + d) * x + r == a * (10 * x) + (d * x + r)
  {
    assert (a * 10 + d) * x == a * 10 * x + d * x;
  }

  /** A run of digits written at `q` and not followed by another digit is read whole,
      and the accumulator ends up holding its value appended to `acc`. */
  lemma {:induction false} ReadDigits(s: string, q: nat, t: string, acc: nat)
    requires At(s, q, t) && forall i | 0 <= i < |t| :: IsDigit(t[i])
    requires q + |t| == |s| || !IsDigit(s[q + |t|])
    ensures DigitRun(s, q) == q + |t| && AllDigits(s, q, q + |t|)
    ensures Accumulate(s, q, q + |t|, acc) == acc * Pow10(|t|) + DigitsValue(t)
  {
    AtSlice(s, q, t);
    assert AllDigits(s, q, q + |t|) by {
      forall i | q <= i < q + |t| ensures IsDigit(s[i]) {
        assert s[q + (i - q)] == t[i - q];
      }
    }
    DigitRunStops(s, q, q + |t|);
    AccumulateValue(s, q, q + |t|, acc);
  }

  lemma {:induction false} ShiftAdd(x: real, y: real, k: nat)
    ensures Shift(x + y, k) == Shift(x, k) + Shift(y, k)
  {
    if k > 0 {
      ShiftAdd(x, y, k - 1);
    }
  }

  lemma {:induction false} ShiftPow10(n: nat, k: nat)
    ensures Shift((n * Pow10(k)) as real, k) == n as real
    decreases k
  {
    if k > 0 {
      ShiftPow10(n * 10, k - 1);
      Regroup(n, 0, Pow10(k - 1), 0);
    }
  }

  /** Scaling the accumulator down by the number of fraction digits leaves the integer digits
      whole and turns the fraction digits into the fraction. */
  lemma {:induction false} ScaleDown(n: nat, f: nat, k: nat)
    ensures Shift((n * Pow10(k) + f) as real, k) == n as real + Shift(f as real, k)
  {
    ShiftAdd((n * Pow10(k)) as real, f as real, k);
    ShiftPow10(n, k);
  }

  /** A sign written before a digit or a dot is read as that sign; with no sign written,
      nothing is consumed. */
  lemma {:induction false} SignReads(s: string, p: nat, m: SignMark)
    requires At(s, p, SignText(m)) && p + |SignText(m)| < |s|
    requires IsDigit(s[p + |SignText(m)|]) || s[p + |SignText(m)|] == '.'
    ensures SignAt(s, p) == (m == Minus, p + |SignText(m)|)
  {
    if m != NoSign {
      assert s[p + 0] == SignText(m)[0];
    }
  }

  /** The pieces of a decimal's text: the sign, the integer digits, the dot, the fraction. */
  lemma {:induction false} DecimalPieces(s: string, p: nat, d: Decimal)
    requires DecimalWellFormed(d) && At(s, p, DecimalText(d))
    ensures var q := p + |SignText(d.sign)|;
      && SignAt(s, p) == (d.sign == Minus, q)
      && At(s, q, d.whole)
      && (d.dot ==> q + |d.whole| < |s| && s[q + |d.whole|] == '.' && At(s, q + |d.whole| + 1, d.frac))
      && |DecimalText(d)| == |SignText(d.sign)| + |d.whole| + (if d.dot then 1 + |d.frac| else 0)
  {
    DecimalSplit(s, p, d);
    SignPiece(s, p, d);
    if d.dot {
      DotThen(s, p + |SignText(d.sign)| + |d.whole|, d.frac);
    }
  }

  /** The sign, the integer digits, then the dot and fraction of a decimal, written at `p`
      one after the other. */
  predicate LaidOut(s: string, p: nat, d: Decimal) {
    && At(s, p, SignText(d.sign))
    && At(s, p + |SignText(d.sign)|, d.whole)
    && At(s, p + |SignText(d.sign)| + |d.whole|, if d.dot then "." + d.frac else "")
  }

  /** The sign of a decimal laid out at `p` is read. */
  lemma {:induction false} SignPiece(s: string, p: nat, d: Decimal)
    requires DecimalWellFormed(d) && LaidOut(s, p, d)
    ensures SignAt(s, p) == (d.sign == Minus, p + |SignText(d.sign)|)
  {
    AfterSign(s, p, d);
    SignReads(s, p, d.sign);
  }

  /** A decimal's text is its sign, then its integer digits, then the dot and fraction. */
  lemma {:induction false} DecimalSplit(s: string, p: nat, d: Decimal)
    requires At(s, p, DecimalText(d))
    ensures LaidOut(s, p, d)
    ensures |DecimalText(d)| == |SignText(d.sign)| + |d.whole| + (if d.dot then 1 + |d.frac| else 0)
  {
    var sg, w := SignText(d.sign), d.whole;
    AtSplit(s, p, sg + w, if d.dot then "." + d.frac else "");
    AtSplit(s, p, sg, w);
  }

  /** What follows the sign of a well-formed decimal is a digit or its dot. */
  lemma {:induction false} AfterSign(s: string, p: nat, d: Decimal)
    requires DecimalWellFormed(d)
    requires At(s, p + |SignText(d.sign)|, d.whole)
    requires At(s, p + |SignText(d.sign)| + |d.whole|, if d.dot then "." + d.frac else "")
    ensures p + |SignText(d.sign)| < |s|
    ensures IsDigit(s[p + |SignText(d.sign)|]) || s[p + |SignText(d.sign)|] == '.'
  {
    var q := p + |SignText(d.sign)|;
    if |d.whole| > 0 {
      assert s[q + 0] == d.whole[0];
    } else {
      assert s[q + |d.whole| + 0] == ("." + d.frac)[0];
    }
  }

  /** A dot written at `x`, then the text `f`. */
  lemma {:induction false} DotThen(s: string, x: nat, f: string)
    requires At(s, x, "." + f)
    ensures x < |s| && s[x] == '.' && At(s, x + 1, f)
  {
    AtSplit(s, x, ".", f);
    assert s[x + 0] == "."[0];
  }

  /** Digits with no dot after them are read as a whole number. */
  lemma {:induction false} UnsignedReadsWhole(s: string, q: nat, w: string)
    requires |w| > 0 && At(s, q, w) && forall i | 0 <= i < |w| :: IsDigit(w[i])
    requires q + |w| == |s| || (!IsDigit(s[q + |w|]) && s[q + |w|] != '.')
    ensures Unsigned(s, q) == Success(DigitsValue(w) as real, q + |w|)
  {
    ReadDigits(s, q, w, 0);
  }

  /** Digits, a dot and more digits, at least one digit in all, are read as the integer
      digits plus the fraction digits scaled down. */
  lemma {:induction false} UnsignedReadsFraction(s: string, q: nat, w: string, f: string)
    requires |w| + |f| > 0
    requires At(s, q, w) && forall i | 0 <= i < |w| :: IsDigit(w[i])
    requires q + |w| < |s| && s[q + |w|] == '.'
    requires At(s, q + |w| + 1, f) && forall i | 0 <= i < |f| :: IsDigit(f[i])
    requires q + |w| + 1 + |f| == |s| || !IsDigit(s[q + |w| + 1 + |f|])
    ensures Unsigned(s, q) == Success(DigitsValue(w) as real + Shift(DigitsValue(f) as real, |f|),
                                      q + |w| + 1 + |f|)
  {
    var e := q + |w|;
    var n, m := DigitsValue(w), DigitsValue(w) * Pow10(|f|) + DigitsValue(f);
    ReadDigits(s, q, w, 0);
    ReadDigits(s, e + 1, f, n);
    ScaleDown(n, DigitsValue(f), |f|);
    UnsignedFractionShape(s, q, e, e + 1 + |f|, n, m, |f|, DigitsValue(w) as real + Shift(DigitsValue(f) as real, |f|));
  }

  /** `double_` on digits, a dot and digits: the digits after the dot continue the number
      read before it, and the whole is scaled down by one place per fraction digit. */
  lemma {:induction false} UnsignedFractionShape(s: string, q: nat, e: nat, g: nat, n: nat, m: nat, k: nat, v: real)
    requires q <= e < |s| && s[e] == '.' && e + 1 <= g <= |s| && (e > q || g > e + 1)
    requires DigitRun(s, q) == e && AllDigits(s, q, e) && Accumulate(s, q, e, 0) == n
    requires DigitRun(s, e + 1) == g && AllDigits(s, e + 1, g) && Accumulate(s, e + 1, g, n) == m
    requires k == g - e - 1 && Shift(m as real, k) == v
    ensures Unsigned(s, q) == Success(v, g)
  {
  }

  /** The unsigned part of a decimal's text reads back its magnitude. */
  lemma {:induction false} UnsignedReadsDecimal(s: string, q: nat, d: Decimal)
    requires q <= |s| && DecimalWellFormed(d) && At(s, q, d.whole)
    requires d.dot ==> q + |d.whole| < |s| && s[q + |d.whole|] == '.' && At(s, q + |d.whole| + 1, d.frac)
    requires var e := q + |d.whole| + (if d.dot then 1 + |d.frac| else 0);
      e >= |s| || (!IsDigit(s[e]) && (d.dot || s[e] != '.'))
    ensures Unsigned(s, q) == Success(
      DigitsValue(d.whole) as real + Shift(DigitsValue(d.frac) as real, |d.frac|),
      q + |d.whole| + (if d.dot then 1 + |d.frac| else 0))
  {
    if d.dot {
      UnsignedReadsFraction(s, q, d.whole, d.frac);
    } else {
      UnsignedReadsWhole(s, q, d.whole);
    }
  }

  /** `double_` reads back exactly the value of a well-formed decimal's text, wherever the
      text sits after optional spaces, provided the next character does not continue it. */
  lemma {:induction false} DoubleReadsDecimal(s: string, pos: nat, d: Decimal)
    requires pos <= |s| && DecimalWellFormed(d)
    requires At(s, SkipSpace(s, pos), DecimalText(d))
    requires DecimalEnds(s, SkipSpace(s, pos) + |DecimalText(d)|, d)
    ensures Double(s, pos) == Success(DecimalValue(d), SkipSpace(s, pos) + |DecimalText(d)|)
  {
    var p := SkipSpace(s, pos);
    DecimalPieces(s, p, d);
    UnsignedReadsDecimal(s, p + |SignText(d.sign)|, d);
  }

  lemma {:induction false} DoubleIgnoresCase(s: string, pos: nat)
    requires pos <= |s|
    ensures Double(LowerStr(s), pos) == Double(s, pos)
  {
    var t := LowerStr(s);
    SkipSpaceIgnoresCase(s, pos);
    var p := SkipSpace(s, pos);
    assert SignAt(t, p) == SignAt(s, p);
    UnsignedIgnoresCase(s, SignAt(s, p).1);
  }

  lemma {:induction false} UnsignedIgnoresCase(s: string, q: nat)
    requires q <= |s|
    ensures Unsigned(LowerStr(s), q) == Unsigned(s, q)
  {
    DigitRunIgnoresCase(s, q);
    DigitRunSpec(s, q);
    var e := DigitRun(s, q);
    AccumulateIgnoresCase(s, q, e, 0);
    if e < |s| && s[e] == '.' {
      DigitRunIgnoresCase(s, e + 1);
      DigitRunSpec(s, e + 1);
      AccumulateIgnoresCase(s, e + 1, DigitRun(s, e + 1), Accumulate(s, q, e, 0));
    }
  }

  lemma {:induction false} DigitRunIgnoresCase(s: string, pos: nat)
    requires pos <= |s|
    ensures DigitRun(LowerStr(s), pos) == DigitRun(s, pos)
    decreases |s| - pos
  {
    if pos < |s| && IsDigit(s[pos]) {
      DigitRunIgnoresCase(s, pos + 1);
    }
  }

  lemma {:induction false} AccumulateIgnoresCase(s: string, from: nat, to: nat, acc: nat)
    requires from <= to <= |s| && AllDigits(s, from, to)
    ensures AllDigits(LowerStr(s), from, to)
    ensures Accumulate(LowerStr(s), from, to, acc) == Accumulate(s, from, to, acc)
    decreases (to as int) - (from as int)
  {
    if from < to {
      AccumulateIgnoresCase(s, from + 1, to, acc * 10 + DigitValue(s[from]));
    }
  }

  lemma {:induction false} UnitDoubleIgnoresCase(s: string, pos: nat)
    requires pos <= |s|
    ensures UnitDouble(LowerStr(s), pos) == UnitDouble(s, pos)
  {
    DoubleIgnoresCase(s, pos);
  }
}
