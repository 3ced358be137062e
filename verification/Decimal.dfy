/** Decimal text of natural numbers: `str(n)`, `int(text)` on plain digits, and `zfill`. */
module Decimal {

  predicate IsDecimal(c: char) {
    '0' <= c <= '9'
  }

  /** Non-empty ASCII digits. */
  predicate IsNumber(s: string) {
    |s| > 0 && forall i :: 0 <= i < |s| ==> IsDecimal(s[i])
  }

  function Print(n: nat): (s: string)
    ensures |s| > 0 && forall i :: 0 <= i < |s| ==> IsDecimal(s[i])
  {
    if n < 10 then [(n + 48) as char] else Print(n / 10) + [(n % 10 + 48) as char]
  }

  /** No leading zero. */
  lemma {:induction false} PrintCanonical(n: nat)
    ensures Print(n)[0] == '0' <==> n == 0
    ensures n == 0 ==> Print(n) == "0"
  {
    if n >= 10 {
      PrintCanonical(n / 10);
    }
  }

  function DigitValue(c: char): nat
    requires IsDecimal(c)
  {
    c as int - '0' as int
  }

  /** `int(text)`, for text that is ASCII digits. */
  function Parse(s: string): nat
    requires forall i :: 0 <= i < |s| ==> IsDecimal(s[i])
  {
    if |s| == 0 then 0 else Parse(s[..|s| - 1]) * 10 + DigitValue(s[|s| - 1])
  }

  lemma {:induction false} ParsePrint(n: nat)
    ensures Parse(Print(n)) == n
  {
    if n >= 10 {
      ParsePrint(n / 10);
      assert Print(n)[..|Print(n)| - 1] == Print(n / 10);
    } else {
      assert Print(n)[..0] == "";
    }
  }

  function Zeros(k: nat): (s: string)
    ensures |s| == k && forall i :: 0 <= i < k ==> s[i] == '0'
  {
    seq(k, _ => '0')
  }

  /** `str(n).zfill(width)`. */
  function Filled(n: nat, width: nat): (s: string)
    ensures |s| >= width && |s| > 0 && forall i :: 0 <= i < |s| ==> IsDecimal(s[i])
    ensures |Print(n)| <= width ==> |s| == width
  {
    if |Print(n)| >= width then Print(n) else Zeros(width - |Print(n)|) + Print(n)
  }

  lemma {:induction false} ParseZeros(k: nat, s: string)
    requires forall i :: 0 <= i < |s| ==> IsDecimal(s[i])
    ensures Parse(Zeros(k) + s) == Parse(s)
    decreases k + |s|
  {
    var t := Zeros(k) + s;
    if |s| > 0 {
      assert t[..|t| - 1] == Zeros(k) + s[..|s| - 1];
      ParseZeros(k, s[..|s| - 1]);
    } else if k > 0 {
      assert t[..k - 1] == Zeros(k - 1) + s;
      ParseZeros(k - 1, s);
    }
  }

  lemma ParseFilled(n: nat, width: nat)
    ensures Parse(Filled(n, width)) == n
  {
    ParsePrint(n);
    if |Print(n)| < width {
      ParseZeros(width - |Print(n)|, Print(n));
    }
  }
}
