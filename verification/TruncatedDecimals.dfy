/** Rational numbers printed as decimals, cut off after some places, and what the text says of the number. */
module TruncatedDecimals {
  import P = PrintTerms

  // ----- reading -----

  predicate IsDigit(c: char) {
    '0' <= c <= '9'
  }

  predicate AllDigits(s: string) {
    forall i :: 0 <= i < |s| ==> IsDigit(s[i])
  }

  function DigitValue(c: char): nat
    requires IsDigit(c)
  {
    c as nat - '0' as nat
  }

  /** The number that the digits write. */
  function NatOf(s: string): nat
    requires AllDigits(s)
  {
    if s == "" then 0 else 10 * NatOf(s[..|s| - 1]) + DigitValue(s[|s| - 1])
  }

  function Power10(k: nat): nat {
    if k == 0 then 1 else 10 * Power10(k - 1)
  }

  /** The text is digits, perhaps a point and more digits, perhaps a mark; it says `n / 10^places`. */
  ghost predicate Says(text: string, n: nat, places: nat, mark: bool) {
    exists whole: string, frac: string :: SaysParts(text, whole, frac, n, places, mark)
  }

  ghost predicate SaysParts(text: string, whole: string, frac: string, n: nat, places: nat, mark: bool) {
    && AllDigits(whole) && AllDigits(frac) && whole != "" && |frac| == places
    && (text == whole + "." + frac + (if mark then "?" else "") || (text == whole && frac == "" && !mark))
    && n == NatOf(whole) * Power10(places) + NatOf(frac)
  }

  /** A text says one thing only. */
  lemma {:induction false} SaysOne(text: string, n: nat, places: nat, mark: bool, n': nat, places': nat, mark': bool)
    requires Says(text, n, places, mark) && Says(text, n', places', mark')
    ensures n == n' && places == places' && mark == mark'
  {
    var whole, frac :| SaysParts(text, whole, frac, n, places, mark);
    var whole', frac' :| SaysParts(text, whole', frac', n', places', mark');
    SameWhole(text, whole, frac, n, places, mark, whole', frac', n', places', mark');
    var tail := text[|whole|..];
    if tail != "" {
      assert tail == Tail(frac, mark) && tail == Tail(frac', mark');
      TailParts(frac, mark);
      TailParts(frac', mark');
    }
  }

  function Tail(frac: string, mark: bool): string {
    "." + frac + (if mark then "?" else "")
  }

  lemma {:induction false} TailParts(frac: string, mark: bool)
    requires AllDigits(frac)
    ensures var t := Tail(frac, mark);
      (mark <==> t[|t| - 1] == '?') && frac == if mark then t[1..|t| - 1] else t[1..]
  {
    var t := Tail(frac, mark);
    assert !mark && frac != "" ==> t[|t| - 1] == frac[|frac| - 1];
  }

  lemma {:induction false} SameWhole(text: string, whole: string, frac: string, n: nat, places: nat, mark: bool, whole': string,
                                     frac': string, n': nat, places': nat, mark': bool)
    requires SaysParts(text, whole, frac, n, places, mark) && SaysParts(text, whole', frac', n', places', mark')
    ensures whole == whole' && text[..|whole|] == whole
  {
    assert |whole| <= |text| && text[..|whole|] == whole && (|whole| < |text| ==> text[|whole|] == '.');
    assert |whole'| <= |text| && text[..|whole'|] == whole' && (|whole'| < |text| ==> text[|whole'|] == '.');
    assert forall i :: 0 <= i < |whole| ==> text[i] == whole[i] && IsDigit(text[i]);
    assert forall i :: 0 <= i < |whole'| ==> text[i] == whole'[i] && IsDigit(text[i]);
  }

  // ----- printing -----

  lemma {:induction false} DecimalReads(k: nat)
    ensures P.Decimal(k) != "" && AllDigits(P.Decimal(k)) && NatOf(P.Decimal(k)) == k
  {
    var s := P.Decimal(k);
    if k >= 10 {
      DecimalReads(k / 10);
      DigitChar(k % 10);
      assert s[..|s| - 1] == P.Decimal(k / 10) && s[|s| - 1] == "0123456789"[k % 10];
    } else {
      DigitChar(k);
      assert s[..0] == "";
    }
  }

  lemma {:induction false} DigitChar(d: nat)
    requires d < 10
    ensures IsDigit("0123456789"[d]) && DigitValue("0123456789"[d]) == d
  {
    var ds := "0123456789";
    assert ds[0] == '0' && ds[1] == '1' && ds[2] == '2' && ds[3] == '3' && ds[4] == '4';
    assert ds[5] == '5' && ds[6] == '6' && ds[7] == '7' && ds[8] == '8' && ds[9] == '9';
  }

  /** `n` of `places` places is `num / den` cut off, `rem` in the last place being left. */
  ghost predicate CutOff(n: nat, places: nat, rem: nat, num: nat, den: nat) {
    num * Power10(places) == n * den + rem && rem < den
  }

  /** Quotient and remainder. */
  ghost predicate Divides(num: nat, den: nat, q: nat, r: nat) {
    num == q * den + r && r < den
  }

  method DivRem(num: nat, den: nat) returns (q: nat, r: nat)
    requires den > 0
    ensures Divides(num, den, q, r)
  {
    QuotientNat(num, den);
    q, r := num / den, num % den;
  }

  lemma {:induction false} QuotientNat(num: nat, den: nat)
    requires den > 0
    ensures num / den >= 0 && Divides(num, den, num / den, num % den)
  {
  }

  lemma {:induction false} NoPlaces(num: nat, den: nat, q: nat, r: nat)
    ensures Divides(num, den, q, r) <==> CutOff(q, 0, r, num, den)
  {
  }

  /** One more digit of the long division. */
  lemma {:induction false} NextDigit(n: nat, places: nat, rem: nat, num: nat, den: nat, d: nat, r: nat)
    requires CutOff(n, places, rem, num, den) && Divides(rem * 10, den, d, r)
    ensures d < 10 && CutOff(10 * n + d, places + 1, r, num, den)
  {
    if d >= 10 {
      TimesMono(den, 10, d);
    }
    TenTimes(num, Power10(places), n, den, rem);
    Distribute(10 * n, d, den);
    assert (10 * n) * den == 10 * (n * den);
  }

  lemma {:induction false} Distribute(a: nat, b: nat, c: nat)
    ensures (a + b) * c == a * c + b * c
  {
  }

  lemma {:induction false} TimesMono(den: nat, a: nat, b: nat)
    requires a <= b
    ensures den * a <= den * b
  {
  }

  lemma {:induction false} TenTimes(num: nat, p: nat, n: nat, den: nat, rem: nat)
    requires num * p == n * den + rem
    ensures num * (10 * p) == 10 * (n * den) + 10 * rem
  {
  }

  /** The sign, and the digits of the absolute value: as many as it has, or `precision` and a mark. */
  method FormatTrunc(num: int, den: nat, precision: nat)
    returns (neg: bool, out: string, ghost n: nat, ghost places: nat, ghost rem: nat)
    requires den > 0
    ensures neg == (num < 0) && CutOff(n, places, rem, if num < 0 then -num else num, den) && places <= precision
    ensures rem != 0 ==> places == precision
    ensures Says(out, n, places, rem != 0 && precision > 0)
  {
    neg := num < 0;
    var a: nat := if neg then -num else num;
    var ip, left := DivRem(a, den);
    NoPlaces(a, den, ip, left);
    var whole := P.Decimal(ip);
    DecimalReads(ip);
    if left == 0 {
      out, n, places, rem := whole, ip, 0, 0;
      WholeSays(whole);
      return;
    }
    var frac, trailing;
    frac, trailing, n, places, rem := Fraction(a, den, ip, left, precision);
    out := whole + "." + frac + (if trailing then "?" else "");
    assert SaysParts(out, whole, frac, n, places, trailing);
  }

  lemma {:induction false} WholeSays(whole: string)
    requires AllDigits(whole) && whole != ""
    ensures Says(whole, NatOf(whole), 0, false)
  {
    assert SaysParts(whole, whole, "", NatOf(whole), 0, false);
  }

  /** The digits after the point, by long division. */
  method Fraction(ghost a: nat, den: nat, ghost ip: nat, left: nat, precision: nat)
    returns (frac: string, trailing: bool, ghost n: nat, ghost places: nat, ghost rem: nat)
    requires den > 0 && left != 0 && CutOff(ip, 0, left, a, den)
    ensures AllDigits(frac) && |frac| == places <= precision && n == ip * Power10(places) + NatOf(frac)
    ensures CutOff(n, places, rem, a, den) && (rem != 0 ==> places == precision)
    ensures trailing <==> rem != 0 && precision > 0
  {
    frac, trailing, n, places := "", false, ip, 0;
    var r, i := left, 0;
    while i < precision && r != 0
      invariant i == |frac| == places <= precision && CutOff(n, places, r, a, den) && AllDigits(frac)
      invariant n == ip * Power10(places) + NatOf(frac)
      invariant trailing <==> i > 0 && r != 0
    {
      var digit, r' := DivRem(r * 10, den);
      NextDigit(n, places, r, a, den, digit, r');
      DigitPushed(ip, places, frac, digit);
      n, places := 10 * n + digit, places + 1;
      frac := frac + P.Decimal(digit);
      r, i := r', i + 1;
      trailing := r != 0;
    }
    rem := r;
  }

  lemma {:induction false} DigitPushed(whole: nat, places: nat, frac: string, digit: nat)
    requires AllDigits(frac) && digit < 10
    ensures |P.Decimal(digit)| == 1 && AllDigits(frac + P.Decimal(digit))
    ensures whole * Power10(places + 1) + NatOf(frac + P.Decimal(digit)) == 10 * (whole * Power10(places) + NatOf(frac)) + digit
  {
    DecimalReads(digit);
    var more := frac + P.Decimal(digit);
    DigitChar(digit);
    assert more[..|frac|] == frac && more[|frac|] == "0123456789"[digit];
    assert whole * (10 * Power10(places)) == 10 * (whole * Power10(places));
  }

  // ----- what the text says of the number -----

  ghost predicate Exact(n: nat, places: nat, num: nat, den: nat) {
    num * Power10(places) == n * den
  }

  /** The number said is at most the number printed, by less than one in the last place; the mark says that it is less, but
      without places there is no mark. */
  lemma {:induction false} TextTells(n: nat, places: nat, rem: nat, num: nat, den: nat, precision: nat)
    requires CutOff(n, places, rem, num, den) && places <= precision && (rem != 0 ==> places == precision)
    ensures n * den <= num * Power10(places) < (n + 1) * den
    ensures !Exact(n, places, num, den) ==> places == precision
    ensures (rem != 0 && precision > 0 <==> !Exact(n, places, num, den)) <==> precision > 0 || num % den == 0
  {
    assert (n + 1) * den == n * den + den;
    if precision == 0 {
      NoPlaces(num, den, n, rem);
      Remainder(num, den, n, rem);
    }
  }

  lemma {:induction false} Remainder(num: nat, den: nat, n: nat, rem: nat)
    requires Divides(num, den, n, rem)
    ensures num % den == rem
  {
    var q, r := num / den, num % den;
    QuotientNat(num, den);
    if q < n {
      Distribute(q, n - q, den);
      TimesMono(den, 1, n - q);
    } else if q > n {
      Distribute(n, q - n, den);
      TimesMono(den, 1, q - n);
    }
  }

  /** Without places the mark is missing when the number is cut off. */
  lemma {:induction false} UnmarkedCut()
    ensures CutOff(0, 0, 1, 1, 2) && !Exact(0, 0, 1, 2)
  {
    assert Power10(0) == 1;
  }
}
