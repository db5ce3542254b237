/**
 * Decimal text: Rust's `<usize as FromStr>::from_str` (the parse behind a
 * `Content-Length` value) and the rendering of a number as decimal digits.
 * `usize` is taken to be 64 bits wide.
 */
module Decimal {
  import opened Wrappers

  const USIZE_MAX: nat := 0xFFFF_FFFF_FFFF_FFFF

  type usize = n: nat | n <= USIZE_MAX

  predicate IsDigit(c: char) { '0' <= c <= '9' }

  predicate AllDigits(ds: string) { forall i :: 0 <= i < |ds| ==> IsDigit(ds[i]) }

  function DigitValue(c: char): nat
    requires IsDigit(c)
  {
    c as int - '0' as int
  }

  function DigitChar(d: nat): (c: char)
    requires d < 10
    ensures IsDigit(c) && DigitValue(c) == d
  {
    ('0' as int + d) as char
  }

  /** The number a digit string denotes, most significant digit first. */
  function DigitsValue(ds: string): nat
    requires AllDigits(ds)
  {
    if |ds| == 0 then 0 else DigitsValue(ds[..|ds| - 1]) * 10 + DigitValue(ds[|ds| - 1])
  }

  /** `k` copies of the digit zero. */
  function Zeros(k: nat): (z: string)
    ensures |z| == k && AllDigits(z)
  {
    seq(k, _ => '0')
  }

  /** The shortest decimal spelling of `n`: no sign, no leading zero. */
  function DecimalString(n: nat): (ds: string)
    ensures 1 <= |ds|
    ensures AllDigits(ds)
    ensures |ds| > 1 ==> ds[0] != '0'
  {
    if n < 10 then [DigitChar(n)] else DecimalString(n / 10) + [DigitChar(n % 10)]
  }

  /** The optional sign Rust's unsigned integer parser accepts. */
  function Sign(plus: bool): string { if plus then "+" else "" }

  /** The digits left after Rust's integer parser strips one leading `+`. */
  function UnsignedDigits(s: string): string
  {
    if |s| > 0 && s[0] == '+' then s[1..] else s
  }

  /**
   * `<usize as FromStr>::from_str`: an optional single `+`, then at least one ASCII
   * digit and nothing else; a value above `usize::MAX` is an overflow error. A `-`
   * sign, white space and the empty string are errors.
   */
  function ParseUsize(s: string): (r: Option<nat>)
    ensures r.Some? ==> r.value <= USIZE_MAX
    ensures r.Some? <==> |UnsignedDigits(s)| > 0 && AllDigits(UnsignedDigits(s))
                          && DigitsValue(UnsignedDigits(s)) <= USIZE_MAX
  {
    var digits := UnsignedDigits(s);
    if |digits| == 0 || !AllDigits(digits) then None
    else if DigitsValue(digits) <= USIZE_MAX then Some(DigitsValue(digits))
    else None
  }

  lemma DigitsValueSnoc(ds: string, c: char)
    requires AllDigits(ds) && IsDigit(c)
    ensures AllDigits(ds + [c])
    ensures DigitsValue(ds + [c]) == DigitsValue(ds) * 10 + DigitValue(c)
  {
    assert (ds + [c])[..|ds|] == ds;
  }

  /** Leading zeros do not change the value of a digit string. */
  lemma {:induction false} DigitsValueZeros(k: nat, ds: string)
    requires AllDigits(ds)
    ensures AllDigits(Zeros(k) + ds)
    ensures DigitsValue(Zeros(k) + ds) == DigitsValue(ds)
    decreases |ds|, k
  {
    if |ds| == 0 {
      assert Zeros(k) + ds == Zeros(k);
      if k > 0 {
        assert Zeros(k)[..k - 1] == Zeros(k - 1);
        DigitsValueZeros(k - 1, []);
        assert Zeros(k - 1) + [] == Zeros(k - 1);
      }
    } else {
      var init := ds[..|ds| - 1];
      var last := ds[|ds| - 1];
      assert Zeros(k) + ds == (Zeros(k) + init) + [last];
      DigitsValueZeros(k, init);
      DigitsValueSnoc(Zeros(k) + init, last);
      DigitsValueSnoc(init, last);
      assert init + [last] == ds;
    }
  }

  /** The decimal spelling of `n` denotes `n`. */
  lemma {:induction false} DecimalStringValue(n: nat)
    ensures DigitsValue(DecimalString(n)) == n
  {
    if n >= 10 {
      DecimalStringValue(n / 10);
      DigitsValueSnoc(DecimalString(n / 10), DigitChar(n % 10));
    }
  }

  /** A digit string of value zero is all zeros. */
  lemma {:induction false} ZeroValueIsZeros(ds: string)
    requires AllDigits(ds) && DigitsValue(ds) == 0
    ensures ds == Zeros(|ds|)
  {
    if |ds| > 0 {
      var init := ds[..|ds| - 1];
      ZeroValueIsZeros(init);
      assert ds == init + [ds[|ds| - 1]];
    }
  }

  /**
   * Every digit string is some leading zeros followed by the decimal spelling of its
   * value (an all-zero string keeps one zero as the spelling of 0).
   */
  lemma {:induction false} DigitsCanonical(ds: string)
    requires |ds| > 0 && AllDigits(ds)
    ensures |DecimalString(DigitsValue(ds))| <= |ds|
    ensures ds == Zeros(|ds| - |DecimalString(DigitsValue(ds))|) + DecimalString(DigitsValue(ds))
  {
    var init := ds[..|ds| - 1];
    var last := ds[|ds| - 1];
    var v := DigitsValue(ds);
    assert ds == init + [last];
    if DigitsValue(init) == 0 {
      ZeroValueIsZeros(init);
      assert v == DigitValue(last);
      assert DecimalString(v) == [DigitChar(v)] == [last];
    } else {
      DigitsCanonical(init);
      var w := DigitsValue(init);
      assert v / 10 == w && v % 10 == DigitValue(last);
      assert DecimalString(v) == DecimalString(w) + [last];
    }
  }

  /**
   * `ParseUsize` inverts `DecimalString` up to an optional `+` and leading zeros:
   * `s` parses to `v` exactly when `v` fits a `usize` and `s` is `sign + zeros +
   * DecimalString(v)`.
   */
  lemma ParseUsizeAccepts(plus: bool, zeros: nat, v: nat)
    requires v <= USIZE_MAX
    ensures ParseUsize(Sign(plus) + Zeros(zeros) + DecimalString(v)) == Some(v)
  {
    var s := Sign(plus) + Zeros(zeros) + DecimalString(v);
    assert UnsignedDigits(s) == Zeros(zeros) + DecimalString(v);
    DigitsValueZeros(zeros, DecimalString(v));
    DecimalStringValue(v);
  }

  lemma ParseUsizeCanonical(s: string)
    requires ParseUsize(s).Some?
    ensures var v := ParseUsize(s).value;
            && |DecimalString(v)| <= |UnsignedDigits(s)|
            && s == Sign(|s| > 0 && s[0] == '+') + Zeros(|UnsignedDigits(s)| - |DecimalString(v)|) + DecimalString(v)
  {
    var ds := UnsignedDigits(s);
    var v := ParseUsize(s).value;
    DigitsCanonical(ds);
    var plus := |s| > 0 && s[0] == '+';
    var zeros := |ds| - |DecimalString(v)|;
    assert s == Sign(plus) + ds;
    assert s == Sign(plus) + Zeros(zeros) + DecimalString(v);
  }
}
