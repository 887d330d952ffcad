/** Decimal text: what `String(n)` and `padStart` write, what `Number` reads back, and how many digits there are in it. */
module Decimal {

  predicate IsDigit(c: char) {
    '0' <= c <= '9'
  }

  predicate AllDigits(s: string) {
    forall k | 0 <= k < |s| :: IsDigit(s[k])
  }

  function DigitOf(c: char): (d: nat)
    requires IsDigit(c)
    ensures d < 10
  {
    c as int - '0' as int
  }

  function CharOf(d: nat): (c: char)
    requires d < 10
    ensures IsDigit(c) && DigitOf(c) == d
  {
    ('0' as int + d) as char
  }

  /** The number a run of digits spells; 0 for none. */
  function Value(s: string): nat
    requires AllDigits(s)
  {
    if s == "" then 0 else Value(s[..|s| - 1]) * 10 + DigitOf(s[|s| - 1])
  }

  /** `String(n)` */
  function Show(n: nat): (s: string)
    ensures s != "" && AllDigits(s)
  {
    if n < 10 then [CharOf(n)] else Show(n / 10) + [CharOf(n % 10)]
  }

  function Pow10(k: nat): (p: nat)
    ensures p > 0
  {
    if k == 0 then 1 else 10 * Pow10(k - 1)
  }

  function Zeros(k: nat): (s: string)
    ensures |s| == k && AllDigits(s)
  {
    seq(k, _ => '0')
  }

  /** `String(n).padStart(w, "0")` */
  function Pad(n: nat, w: nat): (s: string)
    ensures AllDigits(s)
  {
    var s := Show(n);
    if |s| < w then Zeros(w - |s|) + s else s
  }

  lemma {:induction false} ValueSnoc(s: string, c: char)
    requires AllDigits(s) && IsDigit(c)
    ensures AllDigits(s + [c]) && Value(s + [c]) == Value(s) * 10 + DigitOf(c)
  {
    assert (s + [c])[..|s|] == s;
  }

  /** The digits, in their order. */
  lemma {:induction false} DigitExact(d: nat)
    requires d < 10
    ensures IsDigit("0123456789"[d]) && DigitOf("0123456789"[d]) == d
  {
    var digits := "0123456789";
    assert digits[d] as int == '0' as int + d;
  }

  lemma {:induction false} ShowRoundTrip(n: nat)
    ensures Value(Show(n)) == n
    ensures n > 0 ==> Show(n)[0] != '0'
    ensures n < 10 ==> |Show(n)| == 1
  {
    if n >= 10 {
      ShowRoundTrip(n / 10);
      ValueSnoc(Show(n / 10), CharOf(n % 10));
    } else {
      assert Show(n)[..0] == "";
    }
  }

  lemma {:induction false} ShowLength(n: nat, w: nat)
    requires w > 0 && n < Pow10(w)
    ensures |Show(n)| <= w
    decreases w
  {
    assert Pow10(1) == 10 * Pow10(0);
    if n >= 10 {
      ShowLength(n / 10, w - 1);
    }
  }

  lemma {:induction false} ValueBound(s: string)
    requires AllDigits(s)
    ensures Value(s) < Pow10(|s|)
  {
    if s != "" {
      ValueBound(s[..|s| - 1]);
    }
  }

  lemma {:induction false} ValueZeros(k: nat, s: string)
    requires AllDigits(s)
    ensures AllDigits(Zeros(k) + s) && Value(Zeros(k) + s) == Value(s)
    decreases |s|, k
  {
    if s == "" {
      assert Zeros(k) + s == Zeros(k);
      if k > 0 {
        ValueZeros(k - 1, "");
        assert Zeros(k - 1) + "" == Zeros(k - 1);
        assert Zeros(k) == Zeros(k - 1) + ['0'];
        ValueSnoc(Zeros(k - 1), '0');
      }
    } else {
      var m := |s| - 1;
      ValueZeros(k, s[..m]);
      ValueSnoc(Zeros(k) + s[..m], s[m]);
      assert Zeros(k) + s == (Zeros(k) + s[..m]) + [s[m]];
    }
  }

  /** Digits of one length are told apart by their value. */
  lemma {:induction false} ValueInjective(s: string, t: string)
    requires AllDigits(s) && AllDigits(t) && |s| == |t| && Value(s) == Value(t)
    ensures s == t
  {
    hide Value, DigitOf;
    if s != "" {
      var m := |s| - 1;
      LastDigit(s);
      LastDigit(t);
      TenDigits(Value(s[..m]), DigitOf(s[m]), Value(t[..m]), DigitOf(t[m]));
      ValueInjective(s[..m], t[..m]);
      SameDigit(s[m], t[m]);
      assert s == s[..m] + [s[m]] && t == t[..m] + [t[m]];
    }
  }

  lemma {:induction false} LastDigit(s: string)
    requires s != "" && AllDigits(s)
    ensures var m := |s| - 1; AllDigits(s[..m]) && Value(s) == 10 * Value(s[..m]) + DigitOf(s[m]) && DigitOf(s[m]) < 10
  {
  }

  lemma {:induction false} TenDigits(a: nat, x: nat, b: nat, y: nat)
    requires x < 10 && y < 10 && 10 * a + x == 10 * b + y
    ensures a == b && x == y
  {
  }

  lemma {:induction false} SameDigit(c: char, d: char)
    requires IsDigit(c) && IsDigit(d) && DigitOf(c) == DigitOf(d)
    ensures c == d
  {
  }

  /** A number that fits is padded to exactly `w` digits, which spell it. */
  lemma {:induction false} PadFits(n: nat, w: nat)
    requires w > 0 && n < Pow10(w)
    ensures |Pad(n, w)| == w && Value(Pad(n, w)) == n
  {
    ShowLength(n, w);
    ShowRoundTrip(n);
    ValueZeros(w - |Show(n)|, Show(n));
    if |Show(n)| == w {
      assert Pad(n, w) == Show(n);
    }
  }

  /** And `w` digits are the padding of their value. */
  lemma {:induction false} PadOfValue(s: string)
    requires AllDigits(s) && s != ""
    ensures Pad(Value(s), |s|) == s
  {
    ValueBound(s);
    PadFits(Value(s), |s|);
    ValueInjective(Pad(Value(s), |s|), s);
  }

  lemma {:induction false} Pow10Values()
    ensures Pow10(1) == 10 && Pow10(2) == 100 && Pow10(3) == 1000 && Pow10(4) == 10000
    ensures Pow10(6) == 1_000_000 && Pow10(9) == 1_000_000_000
  {
    assert Pow10(1) == 10 * Pow10(0);
    assert Pow10(2) == 10 * Pow10(1);
    assert Pow10(3) == 10 * Pow10(2);
    assert Pow10(4) == 10 * Pow10(3);
    assert Pow10(5) == 10 * Pow10(4);
    assert Pow10(6) == 10 * Pow10(5);
    assert Pow10(7) == 10 * Pow10(6);
    assert Pow10(8) == 10 * Pow10(7);
    assert Pow10(9) == 10 * Pow10(8);
  }

  // --- fractions: trailing zeros off, and on again ---------------------------------------

  /** `s.replace(/0+$/, "")` */
  function TrimZeros(s: string): (r: string)
    ensures |r| <= |s| && r == s[..|r|]
  {
    if s != "" && s[|s| - 1] == '0' then TrimZeros(s[..|s| - 1]) else s
  }

  /** `s.padEnd(9, "0")` for what `s.slice(0, 9)` left. */
  function PadNine(s: string): string
    requires |s| <= 9
  {
    s + Zeros(9 - |s|)
  }

  lemma {:induction false} TrimPad(s: string)
    requires |s| <= 9
    ensures PadNine(TrimZeros(s)) == PadNine(s)
    ensures TrimZeros(TrimZeros(s)) == TrimZeros(s)
  {
    if s != "" && s[|s| - 1] == '0' {
      TrimPad(s[..|s| - 1]);
      assert PadNine(s[..|s| - 1]) == PadNine(s);
    }
  }

  lemma {:induction false} TrimDigits(s: string)
    requires AllDigits(s)
    ensures AllDigits(TrimZeros(s))
  {
  }
}
