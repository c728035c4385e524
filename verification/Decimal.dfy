/** Decimal numerals, zero padding, and their reading back. */
module Decimal {

  function DigitChar(d: nat): char
    requires d < 10
  {
    "0123456789"[d]
  }

  /** `str(n)` for a natural number. */
  function Digits(n: nat): (s: string)
    ensures |s| > 0
  {
    if n < 10 then [DigitChar(n)] else Digits(n / 10) + [DigitChar(n % 10)]
  }

  predicate IsDigit(c: char) { '0' <= c <= '9' }

  function DigitValue(c: char): nat { if IsDigit(c) then (c - '0') as nat else 0 }

  function ParseNat(s: string): nat {
    if s == "" then 0 else 10 * ParseNat(s[..|s| - 1]) + DigitValue(s[|s| - 1])
  }

  /** `f"{n:0{width}d}"` for a natural number. */
  function ZeroPadded(n: nat, width: nat): string {
    var s := Digits(n);
    if |s| >= width then s else seq(width - |s|, _ => '0') + s
  }

  lemma {:induction false} DigitCharValue(d: nat)
    requires d < 10
    ensures IsDigit(DigitChar(d)) && DigitValue(DigitChar(d)) == d
  {
  }

  lemma {:induction false} ParseSnoc(front: string, c: char)
    ensures ParseNat(front + [c]) == 10 * ParseNat(front) + DigitValue(c)
  {
    assert (front + [c])[..|front|] == front;
  }

  /** A numeral is made of digits only and reads back as its number. */
  lemma {:induction false} DigitsRoundTrip(n: nat)
    ensures ParseNat(Digits(n)) == n
    ensures forall c :: c in Digits(n) ==> IsDigit(c)
  {
    hide DigitChar, DigitValue, IsDigit;
    if n < 10 {
      DigitCharValue(n);
      ParseSnoc("", DigitChar(n));
      assert "" + [DigitChar(n)] == [DigitChar(n)];
    } else {
      DigitsRoundTrip(n / 10);
      DigitCharValue(n % 10);
      ParseSnoc(Digits(n / 10), DigitChar(n % 10));
    }
  }

  lemma {:induction false} LeadingZeros(k: nat, s: string)
    ensures ParseNat(seq(k, _ => '0') + s) == ParseNat(s)
    decreases k + |s|
  {
    var padded := seq(k, _ => '0') + s;
    if s != "" {
      var front := s[..|s| - 1];
      assert padded == (seq(k, _ => '0') + front) + [s[|s| - 1]];
      assert s == front + [s[|s| - 1]];
      ParseSnoc(seq(k, _ => '0') + front, s[|s| - 1]);
      ParseSnoc(front, s[|s| - 1]);
      LeadingZeros(k, front);
    } else if k > 0 {
      assert padded == (seq(k - 1, _ => '0') + "") + ['0'];
      ParseSnoc(seq(k - 1, _ => '0') + "", '0');
      LeadingZeros(k - 1, "");
    }
  }

  lemma {:induction false} ZeroPaddedRoundTrip(n: nat, width: nat)
    ensures ParseNat(ZeroPadded(n, width)) == n
  {
    hide Digits, ParseNat;
    DigitsRoundTrip(n);
    if |Digits(n)| < width {
      LeadingZeros(width - |Digits(n)|, Digits(n));
    }
  }

  /** Only zero is written with a leading zero. */
  lemma {:induction false} NoLeadingZero(n: nat)
    ensures n > 0 ==> DigitValue(Digits(n)[0]) > 0
    ensures n < 10 ==> |Digits(n)| == 1
  {
    hide DigitValue, DigitChar;
    if n < 10 {
      DigitCharValue(n);
    } else {
      NoLeadingZero(n / 10);
    }
  }
}
