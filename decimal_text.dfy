/** The text side of the YDB Decimal codec: `Parse` reads a decimal literal into
    an integer scaled by 10^scale and `Format` writes one back. */
module DecimalText {
  import opened Wrappers
  import opened Decimal

  datatype ParseError =
    | PrecisionError(str: string, precision: uint32, scale: uint32)
    | SyntaxError(rest: string)

  /** How the integral-digit budget is spent: `EveryDigit` is the source's rule
      (every digit before and after the dot decrements a wrapping `uint32`),
      `SignificantDigits` spends it only on digits of a nonzero prefix. */
  datatype Budget = EveryDigit | SignificantDigits

  /** The variables of `Parse`'s main loop. */
  datatype ScanState = ScanState(result: nat, integral: uint32, dot: bool, scale: uint32)

  /** How the main loop ends: the overflow return, a syntax error at `rest`, or
      the scanned value with the scale left and the characters not consumed. */
  datatype ScanOutcome =
    | Overflow
    | BadSyntax(rest: string)
    | Scanned(result: nat, scale: uint32, rest: string)

  /** `integral--` on a `uint32`. */
  function Decrement(x: uint32): uint32 {
    if x == 0 then 0xFFFF_FFFF else x - 1
  }

  /** The budget after one digit; `counted` is `!dot && result > 0`. */
  function NextIntegral(budget: Budget, integral: uint32, counted: bool): uint32
    requires budget == EveryDigit || !counted || integral > 0
  {
    if budget == EveryDigit then Decrement(integral)
    else if counted then integral - 1
    else integral
  }

  /** The main loop of `Parse`, one character per step. */
  function Scan(str: string, st: ScanState, budget: Budget): ScanOutcome
    decreases |str|
  {
    if str == [] then Scanned(st.result, st.scale, str)
    else
      var c := str[0];
      if c == '.' then
        if st.dot then BadSyntax(str) else Scan(str[1..], st.(dot := true), budget)
      else if st.dot && st.scale == 0 then Scanned(st.result, st.scale, str)
      else if !IsDigit(c) then BadSyntax(str)
      else
        var result := st.result * 10 + DigitVal(c);
        if !st.dot && result > 0 && st.integral == 0 then Overflow
        else
          var integral := NextIntegral(budget, st.integral, !st.dot && result > 0);
          var scale := if st.dot then st.scale - 1 else st.scale;
          Scan(str[1..], ScanState(result, integral, st.dot, scale), budget)
  }

  /** After a `5` on an even value: whether a nonzero digit follows. */
  function TieBreak(t: string): Result<bool, ParseError> {
    if t == [] then Ok(false)
    else if !IsDigit(t[0]) then Err(SyntaxError(t))
    else if t[0] != '0' then Ok(true)
    else TieBreak(t[1..])
  }

  /** Whether the first dropped digit `rest[0]` rounds the value up. */
  function RoundUp(rest: string, result: nat): Result<bool, ParseError>
    requires rest != [] && IsDigit(rest[0])
  {
    if rest[0] > '5' then Ok(true)
    else if rest[0] < '5' then Ok(false)
    else if result % 2 != 0 then Ok(true)
    else TieBreak(rest[1..])
  }

  /** The rounding step after the main loop; rounding up to 10^precision gives `inf`. */
  function Round(rest: string, result: nat, precision: uint32): Result<nat, ParseError> {
    if rest == [] then Ok(result)
    else if !IsDigit(rest[0]) then Err(SyntaxError(rest))
    else match RoundUp(rest, result)
      case Err(e) => Err(e)
      case Ok(up) =>
        if !up then Ok(result)
        else if result + 1 >= Power(10, precision as nat) then Ok(Inf)
        else Ok(result + 1)
  }

  /** `Parse` as a function, under either budget rule. */
  function ParseSpec(str: string, precision: uint32, scale: uint32, budget: Budget): Result<int, ParseError> {
    if scale > precision then Err(PrecisionError(str, precision, scale))
    else if str == "" then Ok(0)
    else
      var neg := str[0] == '-';
      var s := if neg || str[0] == '+' then str[1..] else str;
      if IsInfText(s) then Ok(Signed(neg, Inf))
      else if IsNaNText(s) then Ok(Signed(neg, NaN))
      else Finish(neg, Scan(s, ScanState(0, precision - scale, false, scale), budget), precision)
  }

  /** What follows the main loop: the overflow return, the syntax error, or the
      rounding step and the scaling by the fraction places not written. */
  function Finish(neg: bool, o: ScanOutcome, precision: uint32): Result<int, ParseError> {
    match o
    case Overflow => Ok(Signed(neg, Inf))
    case BadSyntax(rest) => Err(SyntaxError(rest))
    case Scanned(result, sc, rest) =>
      match Round(rest, result, precision)
      case Err(e) => Err(e)
      case Ok(v) => Ok(Signed(neg, v * Power(10, sc as nat)))
  }

  /** `Parse`, as the source writes it. */
  method Parse(str: string, precision: uint32, scale: uint32) returns (r: Result<int, ParseError>)
    ensures r == ParseSpec(str, precision, scale, EveryDigit)
  {
    if scale > precision {
      return Err(PrecisionError(str, precision, scale));
    }
    if str == "" {
      return Ok(0);
    }
    var s := str;
    var neg := s[0] == '-';
    if neg || s[0] == '+' {
      s := s[1..];
    }
    if IsInfText(s) {
      return Ok(Signed(neg, Inf));
    }
    if IsNaNText(s) {
      return Ok(Signed(neg, NaN));
    }
    var integral: uint32 := precision - scale;
    var sc := scale;
    var result: nat := 0;
    var dot := false;
    ghost var s0 := s;
    while |s| > 0
      invariant Scan(s, ScanState(result, integral, dot, sc), EveryDigit)
                == Scan(s0, ScanState(0, precision - scale, false, scale), EveryDigit)
      decreases |s|
    {
      var c := s[0];
      if c == '.' {
        if dot {
          return Err(SyntaxError(s));
        }
        dot := true;
        s := s[1..];
        continue;
      }
      if dot {
        if sc > 0 {
          sc := sc - 1;
        } else {
          break;
        }
      }
      if !IsDigit(c) {
        return Err(SyntaxError(s));
      }
      result := result * 10 + DigitVal(c);
      if !dot && result > 0 && integral == 0 {
        return Ok(Signed(neg, Inf));
      }
      integral := if integral == 0 then 0xFFFF_FFFF else integral - 1;
      s := s[1..];
    }
    if |s| > 0 {
      var c := s[0];
      if !IsDigit(c) {
        return Err(SyntaxError(s));
      }
      ghost var rest := s;
      var plus := c > '5';
      if !plus && c == '5' {
        plus := result % 2 != 0;
        while !plus && |s| > 1
          invariant |s| >= 1
          invariant RoundUp(rest, result) == (if plus then Ok(true) else TieBreak(s[1..]))
          decreases |s|
        {
          s := s[1..];
          var ch := s[0];
          if !IsDigit(ch) {
            return Err(SyntaxError(s));
          }
          plus := ch != '0';
        }
      }
      assert RoundUp(rest, result) == Ok(plus);
      if plus {
        result := result + 1;
        var limit := Pow(10, precision);
        if result >= limit {
          result := Inf;
        }
      }
    }
    var factor := Pow(10, sc);
    r := Ok(Signed(neg, result * factor));
  }

  // ---------------------------------------------------------------------------
  // What `Parse` computes
  // ---------------------------------------------------------------------------

  /** The leading digit of a digit string and the rest. */
  lemma ValFront(s: string)
    requires AllDigits(s) && s != []
    ensures AllDigits(s[1..])
    ensures Val(s) == DigitVal(s[0]) * Power(10, |s| - 1) + Val(s[1..])
  {
    var head, tail := [s[0]], s[1..];
    assert s == head + tail;
    assert Val(head) == DigitVal(s[0]) by {
      assert head[..0] == [];
    }
    ValAppend(head, tail);
  }

  lemma ShiftDigit(r: nat, d: nat, n: nat)
    ensures (r * 10 + d) * Power(10, n) == r * Power(10, n + 1) + d * Power(10, n)
  {
    var p := Power(10, n);
    assert Power(10, n + 1) == 10 * p;
    assert (r * 10 + d) * p == r * 10 * p + d * p;
  }

  /** Once the dot is seen the budget is never consulted again. */
  lemma {:induction false} ScanAfterDot(str: string, x: nat, k1: uint32, k2: uint32, sc: uint32, budget: Budget)
    ensures Scan(str, ScanState(x, k1, true, sc), budget) == Scan(str, ScanState(x, k2, true, sc), budget)
    decreases |str|
  {
    if str != [] && str[0] != '.' && sc != 0 && IsDigit(str[0]) {
      var x' := x * 10 + DigitVal(str[0]);
      ScanAfterDot(str[1..], x', NextIntegral(budget, k1, false), NextIntegral(budget, k2, false), sc - 1, budget);
    }
  }

  /** One digit that neither overflows nor ends the fraction. */
  lemma ScanDigitStep(str: string, st: ScanState, budget: Budget)
    requires str != [] && IsDigit(str[0]) && !(st.dot && st.scale == 0)
    requires st.dot || st.result * 10 + DigitVal(str[0]) == 0 || st.integral > 0
    ensures Scan(str, st, budget)
            == Scan(str[1..], ScanState(st.result * 10 + DigitVal(str[0]),
                                        NextIntegral(budget, st.integral, !st.dot && st.result * 10 + DigitVal(str[0]) > 0),
                                        st.dot, if st.dot then st.scale - 1 else st.scale), budget)
  {
  }

  /** A digit string of value zero is all zeros. */
  lemma ZeroDigits(s: string)
    requires AllDigits(s) && s != [] && Val(s) == 0
    ensures DigitVal(s[0]) == 0 && AllDigits(s[1..]) && Val(s[1..]) == 0
  {
    ValFront(s);
    MultipleBound(DigitVal(s[0]), Power(10, |s| - 1));
  }

  /** At a dot or the end the budget left no longer matters. */
  lemma ScanIntegralEnd(rest: string, r: nat, k: uint32, sc: uint32, budget: Budget)
    requires rest == [] || rest[0] == '.'
    ensures Scan(rest, ScanState(r, k, false, sc), budget) == Scan(rest, ScanState(r * Power(10, 0) + Val([]), 0, false, sc), budget)
  {
    if rest != [] {
      ScanAfterDot(rest[1..], r, k, 0, sc, budget);
    }
  }

  /** One leading digit moves from the string into the value. */
  lemma ValueStep(digits: string, r: nat)
    requires AllDigits(digits) && digits != []
    ensures AllDigits(digits[1..])
    ensures (r * 10 + DigitVal(digits[0])) * Power(10, |digits| - 1) + Val(digits[1..])
            == r * Power(10, |digits|) + Val(digits)
  {
    ValFront(digits);
    ShiftDigit(r, DigitVal(digits[0]), |digits| - 1);
  }

  /** The budget never runs out on digits that fit it or are all zeros. */
  lemma BudgetStep(digits: string, r: nat, k: uint32, budget: Budget)
    requires AllDigits(digits) && digits != []
    requires |digits| <= k as int || (r == 0 && Val(digits) == 0)
    ensures var r' := r * 10 + DigitVal(digits[0]);
            && (r' == 0 || k > 0)
            && AllDigits(digits[1..])
            && (|digits| - 1 <= NextIntegral(budget, k, r' > 0) as int || (r' == 0 && Val(digits[1..]) == 0))
  {
    ValFront(digits);
    if |digits| > k as int {
      ZeroDigits(digits);
    }
  }

  /** Integral digits followed by a dot or the end are all taken into the value
      when they fit the budget or are all zeros. */
  lemma {:induction false} ScanIntegral(digits: string, rest: string, r: nat, k: uint32, sc: uint32, budget: Budget)
    requires AllDigits(digits)
    requires rest == [] || rest[0] == '.'
    requires |digits| <= k as int || (r == 0 && Val(digits) == 0)
    ensures Scan(digits + rest, ScanState(r, k, false, sc), budget)
            == Scan(rest, ScanState(r * Power(10, |digits|) + Val(digits), 0, false, sc), budget)
    decreases |digits|
  {
    if digits == [] {
      ScanIntegralEnd(rest, r, k, sc, budget);
      assert digits + rest == rest;
    } else {
      var r' := r * 10 + DigitVal(digits[0]);
      BudgetStep(digits, r, k, budget);
      assert (digits + rest)[0] == digits[0];
      assert (digits + rest)[1..] == digits[1..] + rest;
      ScanDigitStep(digits + rest, ScanState(r, k, false, sc), budget);
      ScanIntegral(digits[1..], rest, r', NextIntegral(budget, k, r' > 0), sc, budget);
      ValueStep(digits, r);
    }
  }

  /** Fraction digits within the scale are all taken into the value. */
  lemma {:induction false} ScanFraction(digits: string, rest: string, r: nat, k: uint32, sc: uint32, budget: Budget)
    requires AllDigits(digits) && |digits| <= sc as int
    ensures Scan(digits + rest, ScanState(r, k, true, sc), budget)
            == Scan(rest, ScanState(r * Power(10, |digits|) + Val(digits), 0, true, (sc as int - |digits|) as uint32), budget)
    decreases |digits|
  {
    if digits == [] {
      assert digits + rest == rest;
      ScanAfterDot(rest, r, k, 0, sc, budget);
    } else {
      var r' := r * 10 + DigitVal(digits[0]);
      assert (digits + rest)[0] == digits[0];
      assert (digits + rest)[1..] == digits[1..] + rest;
      ValueStep(digits, r);
      ScanFraction(digits[1..], rest, r', NextIntegral(budget, k, false), sc - 1, budget);
    }
  }

  /** A sign, then a body that starts with a digit or a dot (or is empty). */
  lemma ParseSigned(sg: string, body: string, precision: uint32, scale: uint32, budget: Budget)
    requires sg == "" || sg == "+" || sg == "-"
    requires body == [] || IsDigit(body[0]) || body[0] == '.'
    requires scale <= precision
    ensures ParseSpec(sg + body, precision, scale, budget)
            == Finish(sg == "-", Scan(body, ScanState(0, precision - scale, false, scale), budget), precision)
  {
    if sg != "" {
      assert (sg + body)[0] == sg[0];
      assert (sg + body)[1..] == body;
    } else {
      assert sg + body == body;
    }
  }

  /** A single `0` integral part has value zero. */
  lemma ValZero()
    ensures AllDigits("0") && Val("0") == 0
  {
    assert "0"[..0] == [];
  }

  /** Scanning `integral.fraction` with the fraction within the scale. */
  lemma ScanLiteral(integral: string, fraction: string, rest: string, precision: uint32, scale: uint32, budget: Budget)
    requires scale <= precision && AllDigits(integral) && AllDigits(fraction) && |fraction| <= scale as int
    requires |integral| <= (precision - scale) as int || integral == "0"
    ensures AllDigits(integral + fraction)
    ensures Scan(integral + ("." + (fraction + rest)), ScanState(0, precision - scale, false, scale), budget)
            == Scan(rest, ScanState(Val(integral + fraction), 0, true, (scale as int - |fraction|) as uint32), budget)
  {
    ValAppend(integral, fraction);
    if integral == "0" {
      ValZero();
    }
    ScanIntegral(integral, "." + (fraction + rest), 0, precision - scale, scale, budget);
    assert ("." + (fraction + rest))[1..] == fraction + rest;
    ScanFraction(fraction, rest, Val(integral), 0, scale, budget);
  }

  /** An exact literal, `[sign] digits . fraction` with the fraction no longer
      than the scale and the integral part within `precision - scale` digits
      (or a single `0`), parses to its value scaled to exactly `scale` places. */
  lemma ParseExact(sg: string, integral: string, fraction: string, precision: uint32, scale: uint32, budget: Budget)
    requires sg == "" || sg == "+" || sg == "-"
    requires scale <= precision && AllDigits(integral) && AllDigits(fraction) && |fraction| <= scale as int
    requires |integral| <= (precision - scale) as int || integral == "0"
    ensures AllDigits(integral + fraction)
    ensures ParseSpec(sg + integral + "." + fraction, precision, scale, budget)
            == Ok(Signed(sg == "-", Val(integral + fraction) * Power(10, scale as int - |fraction|)))
  {
    var body := integral + ("." + (fraction + []));
    assert sg + integral + "." + fraction == sg + body;
    assert body[0] == if integral == [] then '.' else integral[0];
    ParseSigned(sg, body, precision, scale, budget);
    ScanLiteral(integral, fraction, [], precision, scale, budget);
  }

  /** The same for a literal without a dot: its value times 10^scale. */
  lemma ParseExactInteger(sg: string, integral: string, precision: uint32, scale: uint32, budget: Budget)
    requires sg == "" || sg == "+" || sg == "-"
    requires scale <= precision && AllDigits(integral)
    requires |integral| <= (precision - scale) as int || integral == "0"
    ensures ParseSpec(sg + integral, precision, scale, budget)
            == Ok(Signed(sg == "-", Val(integral) * Power(10, scale as nat)))
  {
    if integral == "0" {
      ValZero();
    }
    assert integral + [] == integral;
    ParseSigned(sg, integral, precision, scale, budget);
    ScanIntegral(integral, [], 0, precision - scale, scale, budget);
  }

  /** `TieBreak` over digits asks whether any of them is nonzero. */
  lemma {:induction false} TieBreakDigits(t: string)
    requires AllDigits(t)
    ensures TieBreak(t) == Ok(exists j :: 0 <= j < |t| && t[j] != '0')
  {
    if t != [] && t[0] == '0' {
      TieBreakDigits(t[1..]);
      assert forall j :: 0 < j < |t| ==> t[j] == t[1..][j - 1];
    }
  }

  /** Rounding half to even on the first dropped digit `d`, with `t` the
      digits after it; rounding up to 10^precision gives infinity. */
  function HalfEven(m: nat, d: char, t: string, precision: uint32): nat {
    var up := d > '5' || (d == '5' && (m % 2 == 1 || exists j :: 0 <= j < |t| && t[j] != '0'));
    if !up then m else if m + 1 >= Power(10, precision as nat) then Inf else m + 1
  }

  /** The rounding step after the last fraction place. Once the first dropped
      digit decides (it is not a `5`, or the value is odd), nothing after it
      is read, so even non-digits there are accepted. */
  lemma FinishRounds(neg: bool, m: nat, d: char, t: string, precision: uint32)
    requires IsDigit(d)
    requires AllDigits(t) || d != '5' || m % 2 == 1
    ensures Finish(neg, Scanned(m, 0, [d] + t), precision) == Ok(Signed(neg, HalfEven(m, d, t, precision)))
  {
    var tail := [d] + t;
    assert tail[0] == d && tail[1..] == t;
    if AllDigits(t) {
      TieBreakDigits(t);
    }
  }

  /** Digits beyond the scale round half to even on the first dropped digit. */
  lemma ParseRoundsHalfToEven(sg: string, integral: string, fraction: string, d: char, t: string,
                              precision: uint32, scale: uint32, budget: Budget)
    requires sg == "" || sg == "+" || sg == "-"
    requires scale <= precision && AllDigits(integral) && AllDigits(fraction) && |fraction| == scale as int
    requires |integral| <= (precision - scale) as int || integral == "0"
    requires IsDigit(d)
    ensures AllDigits(integral + fraction)
    ensures AllDigits(t) || d != '5' || Val(integral + fraction) % 2 == 1 ==>
            ParseSpec(sg + integral + "." + fraction + [d] + t, precision, scale, budget)
            == Ok(Signed(sg == "-", HalfEven(Val(integral + fraction), d, t, precision)))
  {
    var tail := [d] + t;
    var body := integral + ("." + (fraction + tail));
    Reassociate(sg, integral, fraction, d, t);
    ParseSigned(sg, body, precision, scale, budget);
    ScanPastScale(integral, fraction, tail, precision, scale, budget);
    if AllDigits(t) || d != '5' || Val(integral + fraction) % 2 == 1 {
      FinishRounds(sg == "-", Val(integral + fraction), d, t, precision);
    }
  }

  lemma Reassociate(sg: string, integral: string, fraction: string, d: char, t: string)
    requires AllDigits(integral)
    ensures var body := integral + ("." + (fraction + ([d] + t)));
            body[0] == (if integral == [] then '.' else integral[0])
    ensures var body := integral + ("." + (fraction + ([d] + t)));
            sg + integral + "." + fraction + [d] + t == sg + body
            && (IsDigit(body[0]) || body[0] == '.')
  {
  }

  /** A literal with more fraction digits than the scale stops at the first
      digit beyond it. */
  lemma ScanPastScale(integral: string, fraction: string, tail: string, precision: uint32, scale: uint32, budget: Budget)
    requires scale <= precision && AllDigits(integral) && AllDigits(fraction) && |fraction| == scale as int
    requires |integral| <= (precision - scale) as int || integral == "0"
    requires tail != [] && IsDigit(tail[0])
    ensures AllDigits(integral + fraction)
    ensures Scan(integral + ("." + (fraction + tail)), ScanState(0, precision - scale, false, scale), budget)
            == Scanned(Val(integral + fraction), 0, tail)
  {
    ScanLiteral(integral, fraction, tail, precision, scale, budget);
  }

  /** `inf` and `nan` in any letter case after an optional sign are the
      sentinels, whatever follows them. */
  lemma ParseSentinels(sg: string, t: string, precision: uint32, scale: uint32, budget: Budget)
    requires sg == "" || sg == "+" || sg == "-"
    requires scale <= precision
    ensures IsInfText(t) ==> ParseSpec(sg + t, precision, scale, budget) == Ok(Signed(sg == "-", Inf))
    ensures IsNaNText(t) ==> ParseSpec(sg + t, precision, scale, budget) == Ok(Signed(sg == "-", NaN))
  {
    if sg != "" {
      assert (sg + t)[0] == sg[0];
      assert (sg + t)[1..] == t;
    } else {
      assert sg + t == t;
    }
  }

  /** The invariant of the main loop under the significant-digit budget: the
      digits taken so far plus the budget left make `precision - scale`, and
      the value fits the places not yet used. */
  ghost predicate WithinBudget(st: ScanState, precision: uint32, scale: uint32) {
    && st.scale <= scale <= precision
    && st.result < Power(10, (precision - st.scale) as nat)
    && (!st.dot ==> st.scale == scale && NumDigits(st.result) + st.integral as int == (precision - scale) as int)
  }

  lemma {:induction false} ScanWithinBudget(str: string, st: ScanState, precision: uint32, scale: uint32)
    requires WithinBudget(st, precision, scale)
    ensures var o := Scan(str, st, SignificantDigits);
            o.Scanned? ==> o.scale <= precision && o.result < Power(10, (precision - o.scale) as nat)
                           && (o.rest != [] ==> o.scale == 0)
    decreases |str|
  {
    if str != [] {
      var c := str[0];
      if c == '.' {
        if !st.dot {
          ScanWithinBudget(str[1..], st.(dot := true), precision, scale);
        }
      } else if !(st.dot && st.scale == 0) && IsDigit(c) {
        var d := DigitVal(c);
        var result := st.result * 10 + d;
        if !(!st.dot && result > 0 && st.integral == 0) {
          var next := ScanState(result, NextIntegral(SignificantDigits, st.integral, !st.dot && result > 0),
                                st.dot, if st.dot then st.scale - 1 else st.scale);
          DigitKeepsBudget(st, d, precision, scale);
          ScanWithinBudget(str[1..], next, precision, scale);
        }
      }
    }
  }

  /** One digit the scan takes keeps it within the significant-digit budget. */
  lemma DigitKeepsBudget(st: ScanState, d: nat, precision: uint32, scale: uint32)
    requires d < 10 && WithinBudget(st, precision, scale) && !(st.dot && st.scale == 0)
    requires !(!st.dot && st.result * 10 + d > 0 && st.integral == 0)
    ensures WithinBudget(ScanState(st.result * 10 + d,
                                   NextIntegral(SignificantDigits, st.integral, !st.dot && st.result * 10 + d > 0),
                                   st.dot, if st.dot then st.scale - 1 else st.scale), precision, scale)
  {
    var result := st.result * 10 + d;
    if st.dot {
      assert Power(10, (precision - (st.scale - 1)) as nat) == 10 * Power(10, (precision - st.scale) as nat);
    } else {
      if result > 0 {
        NumDigitsAppend(st.result, d);
      }
      NumDigitsBound(result, (precision - scale) as nat);
    }
  }

  /** The step after the loop keeps a value that fits the places left. */
  lemma FinishFits(neg: bool, o: ScanOutcome, precision: uint32, v: int)
    requires o.Scanned? ==> o.scale <= precision && o.result < Power(10, (precision - o.scale) as nat)
                            && (o.rest != [] ==> o.scale == 0)
    requires Finish(neg, o, precision) == Ok(v)
    ensures IsInf(v) || IsNaN(v) || Abs(v) < Power(10, precision as nat)
  {
    if o.Scanned? {
      var w := Round(o.rest, o.result, precision).value;
      assert v == Signed(neg, w * Power(10, o.scale as nat));
      if o.rest == [] {
        ScaledFits(o.result, precision, o.scale);
      } else {
        assert Power(10, 0) == 1;
        assert w == o.result || w == Inf || w == o.result + 1 < Power(10, precision as nat);
      }
    }
  }

  lemma ScaledFits(r: nat, precision: uint32, scale: uint32)
    requires scale <= precision && r < Power(10, (precision - scale) as nat)
    ensures r * Power(10, scale as nat) < Power(10, precision as nat)
  {
    PowerAdd(10, (precision - scale) as nat, scale as nat);
    MulStrict(r, Power(10, (precision - scale) as nat), Power(10, scale as nat));
  }

  /** Counting only significant digits against the budget, every finite
      result has at most `precision` digits: anything larger is infinity. */
  lemma ParseSignificantFits(str: string, precision: uint32, scale: uint32, v: int)
    requires ParseSpec(str, precision, scale, SignificantDigits) == Ok(v)
    ensures IsInf(v) || IsNaN(v) || Abs(v) < Power(10, precision as nat)
  {
    if scale <= precision && str != "" {
      var neg := str[0] == '-';
      var s := if neg || str[0] == '+' then str[1..] else str;
      if !IsInfText(s) && !IsNaNText(s) {
        var init := ScanState(0, precision - scale, false, scale);
        ScanWithinBudget(s, init, precision, scale);
        FinishFits(neg, Scan(s, init, SignificantDigits), precision, v);
      }
    }
  }

  /** Leading zeros spend the source's budget: `01.5` in Decimal(2,1) is
      infinity instead of 1.5. Counting significant digits gives 15 (1.5). */
  lemma ParseLeadingZeroOverflows()
    ensures ParseSpec("01.5", 2, 1, EveryDigit) == Ok(Inf)
    ensures ParseSpec("01.5", 2, 1, SignificantDigits) == Ok(15)
  {
    var s := "01.5";
    assert s[1..] == "1.5" && s[1..][1..] == ".5" && s[1..][1..][1..] == "5" && s[1..][1..][1..][1..] == [];
    assert Scan(s, ScanState(0, 1, false, 1), EveryDigit) == Overflow;
    assert Scan(s, ScanState(0, 1, false, 1), SignificantDigits) == Scanned(15, 0, []);
  }

  /** After three leading zeros in Decimal(2,0) the source's budget wraps
      around, so `0001234` gives 1234, a four-digit value, instead of
      infinity. */
  lemma ParseLeadingZerosWrap()
    ensures ParseSpec("0001234", 2, 0, EveryDigit) == Ok(1234) && 1234 >= Power(10, 2)
  {
    ScanWraps();
    ParseSigned("", "0001234", 2, 0, EveryDigit);
    assert "" + "0001234" == "0001234";
    assert Round([], 1234, 2) == Ok(1234);
    assert Power(10, 0) == 1;
  }

  /** The main loop on `0001234` in Decimal(2,0), step by step. */
  lemma ScanWraps()
    ensures Scan("0001234", ScanState(0, 2, false, 0), EveryDigit) == Scanned(1234, 0, [])
  {
    var s := "0001234";
    ScanDigitStep(s, ScanState(0, 2, false, 0), EveryDigit);
    ScanDigitStep(s[1..], ScanState(0, 1, false, 0), EveryDigit);
    ScanDigitStep(s[2..], ScanState(0, 0, false, 0), EveryDigit);
    assert s[1..][1..] == s[2..] && s[2..][1..] == s[3..] && s[3..] == "1234";
    ScanWrappedDigits();
  }

  /** The digits after the wrap are all taken. */
  lemma ScanWrappedDigits()
    ensures Scan("1234", ScanState(0, 0xFFFF_FFFF, false, 0), EveryDigit) == Scanned(1234, 0, [])
  {
    var s := "1234";
    ScanDigitStep(s, ScanState(0, 0xFFFF_FFFF, false, 0), EveryDigit);
    ScanDigitStep(s[1..], ScanState(1, 0xFFFF_FFFE, false, 0), EveryDigit);
    ScanDigitStep(s[2..], ScanState(12, 0xFFFF_FFFD, false, 0), EveryDigit);
    ScanDigitStep(s[3..], ScanState(123, 0xFFFF_FFFC, false, 0), EveryDigit);
    assert s[1..][1..] == s[2..] && s[2..][1..] == s[3..] && s[3..][1..] == [];
  }

  /** Counting significant digits, `0001234` in Decimal(2,0) is infinity. */
  lemma ParseSignificantLeadingZeros()
    ensures ParseSpec("0001234", 2, 0, SignificantDigits) == Ok(Inf)
  {
    SignificantZerosSkipped();
    SignificantOverflow();
    ParseSigned("", "0001234", 2, 0, SignificantDigits);
    assert "" + "0001234" == "0001234";
  }

  lemma SignificantZerosSkipped()
    ensures Scan("0001234", ScanState(0, 2, false, 0), SignificantDigits)
            == Scan("1234", ScanState(0, 2, false, 0), SignificantDigits)
  {
    var s := "0001234";
    ScanDigitStep(s, ScanState(0, 2, false, 0), SignificantDigits);
    ScanDigitStep(s[1..], ScanState(0, 2, false, 0), SignificantDigits);
    ScanDigitStep(s[2..], ScanState(0, 2, false, 0), SignificantDigits);
    assert s[1..][1..] == s[2..] && s[2..][1..] == s[3..] && s[3..] == "1234";
  }

  lemma SignificantOverflow()
    ensures Scan("1234", ScanState(0, 2, false, 0), SignificantDigits) == Overflow
  {
    var s := "1234";
    ScanDigitStep(s, ScanState(0, 2, false, 0), SignificantDigits);
    ScanDigitStep(s[1..], ScanState(1, 1, false, 0), SignificantDigits);
    assert s[1..][1..] == s[2..] && s[2..][0] == '3';
  }

  // ---------------------------------------------------------------------------
  // `Format`
  // ---------------------------------------------------------------------------

  const BufferSize := 40
  const ErrorTag := "<error>"

  /** The last `k` decimal digits of `n`, most significant first. */
  function Digits(n: nat, k: nat): (r: string)
    ensures |r| == k
  {
    if k == 0 then [] else Digits(n / 10, k - 1) + [DigitChar(n % 10)]
  }

  /** `n` without its last `k` digits: `n / 10^k` (see `DropIsDiv`). */
  function DropDigits(n: nat, k: nat): nat {
    if k == 0 then n else DropDigits(n / 10, k - 1)
  }

  /** The integral part as written: its digits, or `0`. */
  function IntegralText(ip: nat): string {
    if ip == 0 then "0" else Digits(ip, NumDigits(ip))
  }

  /** What `Format` is meant to return: the sentinels by name, `<error>` when
      the value or the scale needs more than `precision` digits, and otherwise
      the sign, the integral part (at least `0`) and exactly `scale` fraction
      digits after a dot. */
  function FormatSpec(value: int, precision: uint32, scale: uint32): string {
    if IsInf(value) then (if value < 0 then "-inf" else "inf")
    else if IsNaN(value) then (if value < 0 then "-nan" else "nan")
    else
      var a := Abs(value);
      if NumDigits(a) > precision as int || scale > precision then ErrorTag
      else
        (if value < 0 then "-" else "") + IntegralText(DropDigits(a, scale as nat))
        + (if scale > 0 then "." + Digits(a, scale as nat) else "")
  }

  /** Zero with no fraction places: the source indexes one past its buffer. */
  predicate FormatPanics(value: int, scale: uint32) {
    value == 0 && scale == 0
  }

  /** The buffer's filled tail after `k` steps of the digit loop. */
  function Written(a: nat, scale: nat, k: nat): string {
    if 0 < scale <= k then Digits(DropDigits(a, scale), k - scale) + "." + Digits(a, scale)
    else Digits(a, k)
  }

  /** The buffer's filled tail once the digits and the fraction padding are in. */
  function Buffered(a: nat, scale: nat): string {
    if 0 < scale && NumDigits(a) <= scale then "." + Digits(a, scale)
    else Written(a, scale, NumDigits(a))
  }

  /** `Format`, as the source writes it, over its 40-byte buffer; `None` stands
      for the out-of-range read the source makes on zero with no fraction. */
  method Format(value: int, precision: uint32, scale: uint32) returns (s: Option<string>)
    requires precision <= 37
    ensures s == if FormatPanics(value, scale) then None else Some(FormatSpec(value, precision, scale))
  {
    if Abs(value) == Inf {
      return Some(if value < 0 then "-inf" else "inf");
    }
    if Abs(value) == NaN {
      return Some(if value < 0 then "-nan" else "nan");
    }
    var neg := value < 0;
    var bts := new char[BufferSize](_ => 0 as char);
    var pos := PutDigits(bts, Abs(value), precision, scale);
    if pos.None? {
      return Some(ErrorTag);
    }
    var p := pos.value;
    BufferedShape(value, precision, scale);
    if p == bts.Length {
      return None;
    }
    ghost var b := bts[p..];
    ghost var body := if b[0] == '.' then "0" + b else b;
    if bts[p] == '.' {
      p := Prepend(bts, p, '0');
    }
    assert bts[p..] == body;
    if neg {
      p := Prepend(bts, p, '-');
    }
    assert bts[p..] == (if neg then "-" else "") + body;
    s := Some(bts[p..]);
  }

  /** The two digit loops of `Format`: the digits of `positiveValue` from the
      end of the buffer, with the dot after `scale` of them, then the zeros
      that pad the fraction to `scale` places. `None` when the digits or the
      places outnumber `precision`; otherwise where the written text starts,
      leaving two free cells for a leading `0` and the sign. */
  method PutDigits(bts: array<char>, positiveValue: nat, precision: uint32, scale: uint32) returns (r: Option<nat>)
    requires bts.Length == BufferSize && precision <= 37
    modifies bts
    ensures r.None? <==> NumDigits(positiveValue) > precision as int || scale > precision
    ensures r.Some? ==> 2 <= r.value <= bts.Length && bts[r.value..] == Buffered(positiveValue, scale as nat)
  {
    var v := positiveValue;
    var pos: nat := bts.Length;
    var prec := precision;
    var sc := scale;
    ghost var a := positiveValue;
    ghost var k := 0;
    while v > 0
      invariant k <= NumDigits(a)
      invariant v == DropDigits(a, k)
      invariant prec as int == precision as int - k
      invariant sc as int == if k <= scale as int then scale as int - k else 0
      invariant pos == BufferSize - k - (if 0 < scale as int <= k then 1 else 0)
      invariant bts[pos..] == Written(a, scale as nat, k)
      decreases v
    {
      DigitsLeft(a, k);
      if prec == 0 {
        return None;
      }
      prec := prec - 1;
      var d := v % 10;
      WrittenStep(a, scale as nat, k);
      if d != 0 || sc == 0 || pos > 0 {
        pos := Prepend(bts, pos, DigitChar(d));
      }
      if sc > 0 {
        sc := sc - 1;
        if sc == 0 && pos > 0 {
          pos := Prepend(bts, pos, '.');
        }
      }
      DropStep(a, k);
      v := v / 10;
      k := k + 1;
    }
    DigitsLeft(a, k);
    if sc > 0 {
      r := PadZeros(bts, pos, a, k, sc, prec);
      return;
    }
    r := Some(pos);
  }

  /** `Format`'s second loop: the zeros that pad the fraction up to `scale`
      places after the `k` digits of `a`, then the dot; `None` when the places
      outnumber what is left of the precision. */
  method PadZeros(bts: array<char>, pos: nat, ghost a: nat, ghost k: nat, sc: uint32, prec: uint32)
    returns (r: Option<nat>)
    requires bts.Length == BufferSize && pos == BufferSize - k && k + prec as int <= 37
    requires NumDigits(a) <= k && 0 < sc && bts[pos..] == Digits(a, k)
    modifies bts
    ensures r.None? <==> sc > prec
    ensures r.Some? ==> r.value == pos - sc as int - 1 && bts[r.value..] == "." + Digits(a, k + sc as int)
  {
    var p: nat := pos;
    var s := sc;
    var left := prec;
    ghost var j := 0;
    while s > 0
      invariant s as int == sc as int - j && left as int == prec as int - j
      invariant p == pos - j
      invariant bts[p..] == Digits(a, k + j)
    {
      if left == 0 {
        return None;
      }
      left := left - 1;
      LeadingZero(a, k + j);
      p := Prepend(bts, p, '0');
      s := s - 1;
      j := j + 1;
    }
    p := Prepend(bts, p, '.');
    r := Some(p);
  }

  /** One `pos--; bts[pos] = c` of `Format`. */
  method Prepend(bts: array<char>, pos: nat, c: char) returns (p: nat)
    requires 0 < pos <= bts.Length
    modifies bts
    ensures p == pos - 1 && bts[p..] == [c] + old(bts[pos..])
  {
    p := pos - 1;
    bts[p] := c;
    assert bts[p..] == [c] + old(bts[pos..]);
  }

  lemma {:induction false} DigitsAreDigits(n: nat, k: nat)
    ensures AllDigits(Digits(n, k))
  {
    if k > 0 {
      DigitsAreDigits(n / 10, k - 1);
    }
  }

  lemma {:induction false} DropStep(a: nat, k: nat)
    ensures DropDigits(a, k + 1) == DropDigits(a, k) / 10
  {
    if k > 0 {
      DropStep(a / 10, k - 1);
    }
  }

  lemma {:induction false} DropAdd(a: nat, s: nat, t: nat)
    ensures DropDigits(DropDigits(a, s), t) == DropDigits(a, s + t)
  {
    if s > 0 {
      DropAdd(a / 10, s - 1, t);
    }
  }

  /** Dropping `k` digits is dividing by 10^k. */
  lemma {:induction false} DropIsDiv(a: nat, k: nat)
    ensures DropDigits(a, k) == a / Power(10, k)
  {
    if k > 0 {
      DropIsDiv(a / 10, k - 1);
      DivDiv(a, 10, Power(10, k - 1));
    } else {
      assert Power(10, 0) == 1;
    }
  }

  /** The value left after `k` digits is zero exactly when `k` covers them all. */
  lemma {:induction false} DigitsLeft(a: nat, k: nat)
    ensures DropDigits(a, k) == 0 <==> NumDigits(a) <= k
  {
    if k > 0 {
      DigitsLeft(a / 10, k - 1);
    }
  }

  /** The digit loop prepends the next digit. */
  lemma {:induction false} DigitsPrepend(a: nat, k: nat)
    ensures Digits(a, k + 1) == [DigitChar(DropDigits(a, k) % 10)] + Digits(a, k)
  {
    if k > 0 {
      DigitsPrepend(a / 10, k - 1);
    }
  }

  /** Past its last digit a value only supplies zeros. */
  lemma LeadingZero(a: nat, k: nat)
    requires NumDigits(a) <= k
    ensures Digits(a, k + 1) == ['0'] + Digits(a, k)
  {
    DigitsLeft(a, k);
    DigitsPrepend(a, k);
  }

  /** One step of the digit loop. */
  lemma WrittenStep(a: nat, scale: nat, k: nat)
    ensures Written(a, scale, k + 1)
            == (if k + 1 == scale then "." else "") + [DigitChar(DropDigits(a, k) % 10)] + Written(a, scale, k)
  {
    DigitsPrepend(a, k);
    if 0 < scale <= k {
      var q := DropDigits(a, scale);
      DropAdd(a, scale, k - scale);
      DigitsPrepend(q, k - scale);
      assert k + 1 - scale == k - scale + 1;
    } else if k + 1 == scale {
      assert Written(a, scale, k + 1) == [] + "." + Digits(a, k + 1);
    }
  }

  /** The number of digits left after dropping `s` of them. */
  lemma {:induction false} NumDigitsDrop(a: nat, s: nat)
    requires s <= NumDigits(a)
    ensures NumDigits(DropDigits(a, s)) == NumDigits(a) - s
  {
    if s > 0 {
      NumDigitsDrop(a / 10, s - 1);
    }
  }

  /** The filled buffer, with a `0` before a leading dot, is the integral
      part and the fraction. */
  lemma BufferedText(a: nat, s: nat)
    ensures var b := Buffered(a, s);
            && (b == [] <==> a == 0 && s == 0)
            && (b != [] ==> (if b[0] == '.' then "0" + b else b)
                            == IntegralText(DropDigits(a, s)) + (if s > 0 then "." + Digits(a, s) else ""))
  {
    if NumDigits(a) > s {
      BufferedLong(a, s);
    } else if s > 0 {
      BufferedShort(a, s);
    } else {
      assert a == 0;
    }
  }

  /** No more digits than fraction places: the buffer starts with the dot. */
  lemma BufferedShort(a: nat, s: nat)
    requires 0 < s && NumDigits(a) <= s
    ensures Buffered(a, s) == "." + Digits(a, s)
    ensures IntegralText(DropDigits(a, s)) == "0"
  {
    DigitsLeft(a, s);
    if NumDigits(a) == s {
      assert Buffered(a, s) == [] + "." + Digits(a, s);
    }
  }

  /** More digits than fraction places: the buffer starts with a digit. */
  lemma BufferedLong(a: nat, s: nat)
    requires NumDigits(a) > s
    ensures var b := Buffered(a, s);
            && b != [] && b[0] != '.'
            && b == IntegralText(DropDigits(a, s)) + (if s > 0 then "." + Digits(a, s) else "")
  {
    var d := NumDigits(a);
    var q := DropDigits(a, s);
    DigitsLeft(a, s);
    NumDigitsDrop(a, s);
    DigitsAreDigits(q, d - s);
    assert IntegralText(q) == Digits(q, d - s);
  }

  /** The filled buffer, after the `0` before a leading dot and the sign, is
      the intended text. */
  lemma BufferedShape(value: int, precision: uint32, scale: uint32)
    requires !IsInf(value) && !IsNaN(value)
    requires NumDigits(Abs(value)) <= precision as int && scale <= precision
    ensures var b := Buffered(Abs(value), scale as nat);
            && (b == [] <==> FormatPanics(value, scale))
            && (b != [] ==> (if value < 0 then "-" else "") + (if b[0] == '.' then "0" + b else b)
                            == FormatSpec(value, precision, scale))
  {
    BufferedText(Abs(value), scale as nat);
  }

  /** The last `k` digits read back give the value modulo 10^k. */
  lemma {:induction false} ValDigits(a: nat, k: nat)
    ensures AllDigits(Digits(a, k))
    ensures Val(Digits(a, k)) == a % Power(10, k)
  {
    DigitsAreDigits(a, k);
    if k > 0 {
      var front := Digits(a / 10, k - 1);
      ValDigits(a / 10, k - 1);
      assert Digits(a, k)[..k - 1] == front;
      assert Val(Digits(a, k)) == Val(front) * 10 + a % 10;
      DivDiv(a, 10, Power(10, k - 1));
    } else {
      assert a % 1 == 0;
    }
  }

  /** The integral part as written reads back as itself, and is `0` or its
      own digits. */
  lemma IntegralVal(q: nat)
    ensures AllDigits(IntegralText(q)) && Val(IntegralText(q)) == q
    ensures IntegralText(q) == "0" || |IntegralText(q)| == NumDigits(q)
    ensures IntegralText(q) != [] && IsDigit(IntegralText(q)[0])
  {
    if q == 0 {
      ValZero();
    } else {
      var n := NumDigits(q);
      ValDigits(q, n);
      NumDigitsBound(q, n);
      DivUnique(q, Power(10, n), 0, q);
    }
  }

  /** The fraction and the integral part read back as the magnitude. */
  lemma SplitVal(a: nat, s: nat)
    requires s > 0
    ensures AllDigits(IntegralText(DropDigits(a, s)) + Digits(a, s))
    ensures Val(IntegralText(DropDigits(a, s)) + Digits(a, s)) == a
  {
    var q := DropDigits(a, s);
    var p := Power(10, s);
    IntegralVal(q);
    ValDigits(a, s);
    ValAppend(IntegralText(q), Digits(a, s));
    assert Val(IntegralText(q) + Digits(a, s)) == q * p + a % p;
    DropIsDiv(a, s);
    DivModSplit(a, p);
  }

  lemma DivModSplit(a: nat, p: int)
    requires p > 0
    ensures a == (a / p) * p + a % p
  {
  }

  /** The integral part fits the digits `Parse` allows before the dot. */
  lemma IntegralFits(a: nat, precision: nat, s: nat)
    requires NumDigits(a) <= precision && s <= precision
    ensures |IntegralText(DropDigits(a, s))| <= precision - s || IntegralText(DropDigits(a, s)) == "0"
  {
    var q := DropDigits(a, s);
    IntegralVal(q);
    DigitsLeft(a, s);
    if q != 0 {
      NumDigitsDrop(a, s);
    }
  }

  /** `Parse` reads back what `Format` writes: every in-range value, under
      either budget rule, and the sentinels. */
  lemma FormatParseRoundTrip(v: int, precision: uint32, scale: uint32, budget: Budget)
    requires scale <= precision
    requires IsInf(v) || IsNaN(v) || Abs(v) < Power(10, precision as nat)
    ensures ParseSpec(FormatSpec(v, precision, scale), precision, scale, budget) == Ok(v)
  {
    var sg := if v < 0 then "-" else "";
    if IsInf(v) {
      ParseSentinels(sg, "inf", precision, scale, budget);
    } else if IsNaN(v) {
      ParseSentinels(sg, "nan", precision, scale, budget);
    } else {
      NumDigitsBound(Abs(v), precision as nat);
      if scale > 0 {
        RoundTripFraction(v, precision, scale, budget);
      } else {
        RoundTripInteger(v, precision, budget);
      }
    }
  }

  lemma RoundTripFraction(v: int, precision: uint32, scale: uint32, budget: Budget)
    requires 0 < scale <= precision && !IsInf(v) && !IsNaN(v) && NumDigits(Abs(v)) <= precision as int
    ensures ParseSpec(FormatSpec(v, precision, scale), precision, scale, budget) == Ok(v)
  {
    var a := Abs(v);
    var sg := if v < 0 then "-" else "";
    IntegralFits(a, precision as nat, scale as nat);
    var i := IntegralText(DropDigits(a, scale as nat));
    var f := Digits(a, scale as nat);
    IntegralVal(DropDigits(a, scale as nat));
    DigitsAreDigits(a, scale as nat);
    SplitVal(a, scale as nat);
    assert FormatSpec(v, precision, scale) == sg + i + "." + f;
    ParseExact(sg, i, f, precision, scale, budget);
    assert Power(10, scale as int - |f|) == 1;
  }

  lemma RoundTripInteger(v: int, precision: uint32, budget: Budget)
    requires !IsInf(v) && !IsNaN(v) && NumDigits(Abs(v)) <= precision as int
    ensures ParseSpec(FormatSpec(v, precision, 0), precision, 0, budget) == Ok(v)
  {
    var a := Abs(v);
    var sg := if v < 0 then "-" else "";
    IntegralFits(a, precision as nat, 0);
    var i := IntegralText(a);
    IntegralVal(a);
    assert DropDigits(a, 0) == a;
    assert FormatSpec(v, precision, 0) == sg + i + "";
    assert sg + i + "" == sg + i;
    ParseExactInteger(sg, i, precision, 0, budget);
    assert Power(10, 0) == 1;
    assert Val(i) * Power(10, 0) == a;
    assert Signed(sg == "-", a) == v;
  }

  /** `Format` gives `<error>` exactly for a finite value or a scale that
      needs more than `precision` digits. */
  lemma FormatErrorTag(v: int, precision: uint32, scale: uint32)
    ensures FormatSpec(v, precision, scale) == ErrorTag
            <==> !IsInf(v) && !IsNaN(v) && (Abs(v) >= Power(10, precision as nat) || scale > precision)
  {
    NumDigitsBound(Abs(v), precision as nat);
    if !IsInf(v) && !IsNaN(v) && NumDigits(Abs(v)) <= precision as int && scale <= precision {
      var sg := if v < 0 then "-" else "";
      var i := IntegralText(DropDigits(Abs(v), scale as nat));
      IntegralVal(DropDigits(Abs(v), scale as nat));
      var t := FormatSpec(v, precision, scale);
      assert t[0] == (if v < 0 then '-' else i[0]);
      assert t[0] != ErrorTag[0];
    }
  }

  /** Zero with no fraction places: the source reads past its buffer, where
      the evidently intended text is `0`, which reads back as zero. */
  lemma FormatZeroWithoutScale(precision: uint32)
    ensures FormatPanics(0, 0)
    ensures FormatSpec(0, precision, 0) == "0"
    ensures ParseSpec(FormatSpec(0, precision, 0), precision, 0, EveryDigit) == Ok(0)
  {
    FormatParseRoundTrip(0, precision, 0, EveryDigit);
  }

  /** A trailing zero digit. */
  lemma DigitsShift(n: nat, k: nat)
    ensures Digits(n * 10, k + 1) == Digits(n, k) + "0"
    ensures DropDigits(n * 10, k + 1) == DropDigits(n, k)
  {
    assert (n * 10) / 10 == n && (n * 10) % 10 == 0;
  }

  /** Examples from the codec's tests at precision 22 and scale 9: a tiny
      negative value. */
  lemma FormatExampleTiny()
    ensures FormatSpec(-1, 22, 9) == "-0.000000001"
  {
    DigitsLeft(1, 9);
    assert Digits(1, 1) == "1";
    LeadingZero(1, 1);
    LeadingZero(1, 2);
    LeadingZero(1, 3);
    LeadingZero(1, 4);
    LeadingZero(1, 5);
    LeadingZero(1, 6);
    LeadingZero(1, 7);
    LeadingZero(1, 8);
  }

  /** One unit at scale 9, and the infinities. */
  lemma FormatExampleOne()
    ensures FormatSpec(1000000000, 22, 9) == "1.000000000"
    ensures FormatSpec(Inf, 22, 9) == "inf" && FormatSpec(-Inf, 22, 9) == "-inf"
  {
    BillionDigits();
    assert IntegralText(1) == "1";
  }

  lemma BillionDigits()
    ensures NumDigits(1000000000) == 10
    ensures Digits(1000000000, 9) == "000000000"
    ensures DropDigits(1000000000, 9) == 1
  {
    DigitsShift(1, 0);
    DigitsShift(10, 1);
    DigitsShift(100, 2);
    DigitsShift(1000, 3);
    DigitsShift(10000, 4);
    DigitsShift(100000, 5);
    DigitsShift(1000000, 6);
    DigitsShift(10000000, 7);
    DigitsShift(100000000, 8);
  }

  /** A value with a zero right after the dot. */
  lemma FormatExampleFraction()
    ensures FormatSpec(50000000, 22, 9) == "0.050000000"
  {
    FiftyMillionDigits();
    DigitsLeft(50000000, 9);
    assert IntegralText(0) == "0";
  }

  lemma FiftyMillionDigits()
    ensures NumDigits(50000000) == 8
    ensures Digits(50000000, 9) == "050000000"
  {
    FiftyMillionWidth();
    FiveThenZeros();
    LeadingZero(50000000, 8);
  }

  lemma FiveThenZeros()
    ensures Digits(50000000, 8) == "50000000"
  {
    assert Digits(5, 1) == "5";
    DigitsShift(5, 1);
    DigitsShift(50, 2);
    DigitsShift(500, 3);
    DigitsShift(5000, 4);
    DigitsShift(50000, 5);
    DigitsShift(500000, 6);
    DigitsShift(5000000, 7);
  }

  lemma FiftyMillionWidth()
    ensures NumDigits(50000000) == 8
  {
    assert NumDigits(5000) == 4;
  }
}
