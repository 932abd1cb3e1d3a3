/** Decimal numerals: `parse_string_as_int` and `std::to_string`. */
module Numerals {

  const INT_MAX := 0x7fff_ffff

  /** `Overflow` is the case where the `int` accumulator overflows, which C++ leaves undefined. */
  datatype Numeral = Malformed | Overflow | Number(n: int)

  predicate IsDigit(c: char) {
    '0' <= c <= '9'
  }

  function DigitOf(d: nat): (c: char)
    requires d < 10
    ensures IsDigit(c) && c as int - '0' as int == d
  {
    ('0' as int + d) as char
  }

  /** One turn of the loop: the accumulator after one more character. */
  function AddDigit(value: nat, c: char): Numeral {
    if !IsDigit(c) then Malformed
    else
      var v := value * 10 + (c as int - '0' as int);
      if v > INT_MAX then Overflow else Number(v)
  }

  /** The accumulator after the whole of s; the first bad character or overflow decides. */
  function Accumulate(s: string): (r: Numeral)
    ensures r.Number? ==> 0 <= r.n <= INT_MAX
  {
    if s == "" then Number(0)
    else
      match Accumulate(s[..|s| - 1])
      case Number(v) => AddDigit(v, s[|s| - 1])
      case bad => bad
  }

  function Negated(r: Numeral): Numeral {
    match r
    case Number(n) => Number(-n)
    case bad => bad
  }

  function ParseInt(sv: string): Numeral {
    if sv == "" then Malformed
    else if sv[0] == '-' then (if |sv| == 1 then Malformed else Negated(Accumulate(sv[1..])))
    else if sv[0] == '+' then (if |sv| == 1 then Malformed else Accumulate(sv[1..]))
    else Accumulate(sv)
  }

  method ParseStringAsInt(sv: string) returns (r: Numeral)
    ensures r == ParseInt(sv)
  {
    if sv == "" {
      return Malformed;
    }
    var negative, i := false, 0;
    if sv[0] == '-' {
      negative, i := true, 1;
      if i == |sv| { return Malformed; }
    } else if sv[0] == '+' {
      i := 1;
      if i == |sv| { return Malformed; }
    }
    var value := 0;
    ghost var digits := sv[i..];
    assert sv[0..] == sv;
    assert ParseInt(sv) == if negative then Negated(Accumulate(digits)) else Accumulate(digits);
    ghost var start := i;
    while i < |sv|
      invariant start <= i <= |sv|
      invariant Accumulate(digits[..i - start]) == Number(value)
    {
      var c := sv[i];
      AccumulateOneMore(digits[..i - start], c);
      assert digits[..i - start] + [c] == digits[..i - start + 1];
      if !IsDigit(c) {
        StopsAt(digits, i - start);
        return Malformed;
      }
      var digit := c as int - '0' as int;
      if value * 10 + digit > INT_MAX {
        StopsAt(digits, i - start);
        return Overflow;
      }
      value := value * 10 + digit;
      i := i + 1;
    }
    assert digits[..i - start] == digits;
    r := Number(if negative then -value else value);
  }

  /** What stops the loop at character i is the result, whatever follows. */
  lemma {:induction false} StopsAt(s: string, i: nat)
    requires i < |s| && !Accumulate(s[..i + 1]).Number?
    ensures Accumulate(s) == Accumulate(s[..i + 1])
    decreases |s|
  {
    if i + 1 < |s| {
      var head := s[..|s| - 1];
      assert head[..i + 1] == s[..i + 1];
      StopsAt(head, i);
    } else {
      assert s[..i + 1] == s;
    }
  }

  // ---------- Printing ----------

  function Decimal(n: nat): (s: string)
    ensures |s| > 0 && forall i :: 0 <= i < |s| ==> IsDigit(s[i])
  {
    if n < 10 then [DigitOf(n)] else Decimal(n / 10) + [DigitOf(n % 10)]
  }

  function ToString(n: int): string {
    if n < 0 then "-" + Decimal(-n) else Decimal(n)
  }

  lemma {:induction false} AccumulateOneMore(s: string, c: char)
    ensures Accumulate(s + [c]) == match Accumulate(s) case Number(v) => AddDigit(v, c) case bad => bad
  {
    assert (s + [c])[..|s|] == s;
  }

  lemma {:induction false} AccumulateDecimal(n: nat)
    ensures Accumulate(Decimal(n)) == if n <= INT_MAX then Number(n) else Overflow
  {
    if n < 10 {
      AccumulateOneMore("", DigitOf(n));
      assert "" + [DigitOf(n)] == Decimal(n);
    } else {
      AccumulateDecimal(n / 10);
      AccumulateOneMore(Decimal(n / 10), DigitOf(n % 10));
    }
  }

  /** Parsing undoes printing for every magnitude below 2^31, and overflows for every other one. */
  lemma ParseUndoesPrint(n: int)
    ensures ParseInt(ToString(n)) == if -INT_MAX <= n <= INT_MAX then Number(n) else Overflow
  {
    var m := if n < 0 then -n else n;
    AccumulateDecimal(m);
    if n < 0 {
      assert ToString(n)[1..] == Decimal(m);
    } else {
      assert IsDigit(ToString(n)[0]);
    }
  }

  // ---------- What a numeral denotes ----------

  predicate AllDigits(s: string) {
    forall i :: 0 <= i < |s| ==> '0' <= s[i] <= '9'
  }

  function Pow10(k: nat): nat {
    if k == 0 then 1 else 10 * Pow10(k - 1)
  }

  /** Positional notation, most significant digit first. */
  function Value(ds: string): nat
    requires AllDigits(ds)
  {
    if ds == "" then 0 else (ds[0] as int - '0' as int) * Pow10(|ds| - 1) + Value(ds[1..])
  }

  lemma {:induction false} ValueOfSum(ds: string, c: char)
    requires AllDigits(ds) && '0' <= c <= '9'
    ensures AllDigits(ds + [c]) && Value(ds + [c]) == 10 * Value(ds) + (c as int - '0' as int)
  {
    if ds == "" {
      assert (ds + [c])[1..] == "" && Pow10(0) == 1;
    } else {
      ValueOfSum(ds[1..], c);
      assert (ds + [c])[1..] == ds[1..] + [c];
      Shift(ds[0] as int - '0' as int, Pow10(|ds| - 1));
    }
  }

  lemma Shift(d: int, p: nat)
    ensures d * (10 * p) == 10 * (d * p)
  {
  }

  lemma {:induction false} PrefixIsSmaller(ds: string, q: nat)
    requires AllDigits(ds) && q <= |ds|
    ensures Value(ds[..q]) <= Value(ds)
    decreases |ds|
  {
    if q < |ds| {
      var n := |ds| - 1;
      assert ds == ds[..n] + [ds[n]] && ds[..n][..q] == ds[..q];
      PrefixIsSmaller(ds[..n], q);
      ValueOfSum(ds[..n], ds[n]);
    } else {
      assert ds[..q] == ds;
    }
  }

  /** Some leading digits already denote more than an `int` holds. */
  ghost predicate TooLarge(s: string) {
    exists q :: 0 <= q <= |s| && AllDigits(s[..q]) && Value(s[..q]) > 0x7fff_ffff
  }

  lemma {:induction false} AccumulateMeans(s: string)
    ensures Accumulate(s).Number? <==> AllDigits(s) && Value(s) <= 0x7fff_ffff
    ensures Accumulate(s).Number? ==> Accumulate(s).n == Value(s)
    ensures Accumulate(s).Overflow? <==> TooLarge(s)
  {
    if s == "" {
      assert forall q :: 0 <= q <= |s| ==> s[..q] == "";
    } else {
      var n := |s| - 1;
      var h := s[..n];
      assert s == h + [s[n]] && h[..n] == h;
      AccumulateMeans(h);
      if AllDigits(h) && '0' <= s[n] <= '9' { ValueOfSum(h, s[n]); }
      TooLargeOn(s);
    }
  }

  lemma {:induction false} TooLargeOn(s: string)
    requires s != ""
    ensures TooLarge(s) <==> TooLarge(s[..|s| - 1]) || (AllDigits(s) && Value(s) > 0x7fff_ffff)
  {
    var h := s[..|s| - 1];
    if q :| 0 <= q <= |h| && AllDigits(h[..q]) && Value(h[..q]) > 0x7fff_ffff {
      assert s[..q] == h[..q];
    }
    if q :| 0 <= q <= |s| && AllDigits(s[..q]) && Value(s[..q]) > 0x7fff_ffff {
      if q < |s| {
        assert h[..q] == s[..q];
      } else {
        assert s[..q] == s;
      }
    }
    assert s[..|s|] == s;
  }

  /** An optional sign and at least one digit; leading zeros are allowed. */
  ghost predicate Denotes(sv: string, n: int) {
    exists ds :: ds != "" && AllDigits(ds)
                 && (((sv == ds || sv == "+" + ds) && n == Value(ds)) || (sv == "-" + ds && -n == Value(ds)))
  }

  function Unsigned(sv: string): string {
    if sv != "" && (sv[0] == '-' || sv[0] == '+') then sv[1..] else sv
  }

  /**
   * The parser accepts exactly the numerals of magnitude below 2^31, at their value; it overflows exactly
   * when some leading digits exceed that; and it rejects all else.
   */
  lemma ParseIntMeans(sv: string, n: int)
    ensures ParseInt(sv) == Number(n) <==> Denotes(sv, n) && -0x7fff_ffff <= n <= 0x7fff_ffff
    ensures ParseInt(sv) == Overflow <==> TooLarge(Unsigned(sv))
  {
    var ds := Unsigned(sv);
    AccumulateMeans(ds);
    if ds == "" { assert forall q :: 0 <= q <= |ds| ==> ds[..q] == ""; }
    DenotesByDigits(sv, n);
    if AllDigits(ds) && Value(ds) <= 0x7fff_ffff {
      assert Accumulate(ds) == Number(Value(ds));
    }
  }

  /** There is one way to read a numeral: its digits are all but the sign. */
  lemma DenotesByDigits(sv: string, n: int)
    ensures var ds := Unsigned(sv);
            Denotes(sv, n) <==> ds != "" && AllDigits(ds) && (if sv[0] == '-' then -n else n) == Value(ds)
  {
    var ds := Unsigned(sv);
    if sv != "" { assert sv == ds || sv == [sv[0]] + ds; }
    forall es | es != "" && AllDigits(es) && (sv == es || sv == "+" + es || sv == "-" + es) ensures es == ds { }
  }

  /** Printing writes a sign only before a negative number, no leading zero, and digits of that value. */
  lemma PrintIsCanonical(n: int)
    ensures Denotes(ToString(n), n)
    ensures var ds := if n < 0 then ToString(n)[1..] else ToString(n);
            && (n < 0 ==> ToString(n)[0] == '-')
            && ds != "" && AllDigits(ds) && Value(ds) == (if n < 0 then -n else n)
            && (ds[0] == '0' ==> ds == "0" && n == 0)
  {
    var m := if n < 0 then -n else n;
    DecimalIsCanonical(m);
    assert n < 0 ==> ToString(n)[1..] == Decimal(m) && ToString(n) == "-" + Decimal(m);
  }

  lemma {:induction false} DecimalIsCanonical(n: nat)
    ensures AllDigits(Decimal(n)) && Value(Decimal(n)) == n
    ensures Decimal(n)[0] == '0' ==> Decimal(n) == "0" && n == 0
  {
    if n < 10 {
      ValueOfSum("", DigitOf(n));
      assert "" + [DigitOf(n)] == Decimal(n);
    } else {
      DecimalIsCanonical(n / 10);
      ValueOfSum(Decimal(n / 10), DigitOf(n % 10));
    }
  }
}
