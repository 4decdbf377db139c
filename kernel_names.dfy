/**
  The kernel entry-point name vec_mul_opencl asks for: "vec_mul_%d" formatted
  into an 11-byte character buffer. The kernel source is expected to define
  one entry point per variant, vec_mul_1 .. vec_mul_4.
*/
module KernelNames {

  const PREFIX: string := "vec_mul_"
  /** Bytes in the name buffer, the terminating NUL included. */
  const NAME_BUFFER_SIZE: nat := 11
  /** The entry points of the four parallel variants. */
  const ENTRY_POINTS: seq<string> := ["vec_mul_1", "vec_mul_2", "vec_mul_3", "vec_mul_4"]

  predicate IsDigit(c: char) {
    '0' <= c <= '9'
  }

  function DigitChar(d: nat): (c: char)
    requires d < 10
    ensures IsDigit(c)
  {
    ('0' as int + d) as char
  }

  function DigitValue(c: char): (d: nat)
    requires IsDigit(c)
    ensures d < 10 && DigitChar(d) == c
  {
    c as int - '0' as int
  }

  /** The decimal digits of n, most significant first, without leading zeros. */
  function Digits(n: nat): (s: string)
    ensures |s| >= 1
    ensures forall k :: 0 <= k < |s| ==> IsDigit(s[k])
    ensures s[0] == '0' ==> n == 0
  {
    if n < 10 then [DigitChar(n)] else Digits(n / 10) + [DigitChar(n % 10)]
  }

  /** printf's %d: a minus sign for negative values, then the digits of the magnitude. */
  function FormatInt(v: int): (s: string)
    ensures |s| >= 1
    ensures s[0] == '-' <==> v < 0
  {
    if v < 0 then "-" + Digits(-v) else Digits(v)
  }

  /** The name sprintf(kernel_cl, "vec_mul_%d", type) produces. */
  function KernelName(variant: int): (name: string)
    ensures |name| > |PREFIX| && name[..|PREFIX|] == PREFIX
  {
    PREFIX + FormatInt(variant)
  }

  /** sprintf writes the name and a terminating NUL: the buffer must hold both. */
  predicate FitsNameBuffer(name: string) {
    |name| + 1 <= NAME_BUFFER_SIZE
  }

  /** Reads decimal digits back into a number: the inverse of Digits. */
  function ParseDigits(s: string): nat
    requires forall k :: 0 <= k < |s| ==> IsDigit(s[k])
  {
    if s == [] then 0 else ParseDigits(s[..|s| - 1]) * 10 + DigitValue(s[|s| - 1])
  }

  lemma {:induction false} ParseDigitsInverse(n: nat)
    ensures ParseDigits(Digits(n)) == n
  {
    if n >= 10 {
      var s := Digits(n);
      assert s[..|s| - 1] == Digits(n / 10);
      ParseDigitsInverse(n / 10);
    }
  }

  function Pow10(k: nat): (p: nat)
    ensures p >= 1
  {
    if k == 0 then 1 else 10 * Pow10(k - 1)
  }

  /** Digits(n) has at most k digits exactly when n < 10^k. */
  lemma {:induction false} DigitsLength(n: nat, k: nat)
    requires k >= 1
    ensures |Digits(n)| <= k <==> n < Pow10(k)
  {
    if n >= 10 {
      if k == 1 {
        assert |Digits(n)| >= 2;
      } else {
        DigitsLength(n / 10, k - 1);
      }
    }
  }

  /** The name and its NUL fit the 11-byte buffer exactly for -9 <= type <= 99. */
  lemma KernelNameFits(variant: int)
    ensures FitsNameBuffer(KernelName(variant)) <==> -9 <= variant <= 99
  {
    if variant < 0 {
      DigitsLength(-variant, 1);
    } else {
      DigitsLength(variant, 2);
    }
  }

  /** %d prints different numbers differently. */
  lemma FormatIntInjective(v: int, w: int)
    requires FormatInt(v) == FormatInt(w)
    ensures v == w
  {
    if v < 0 {
      var f := FormatInt(v);
      assert Digits(-v) == f[1..] == Digits(-w);
      ParseDigitsInverse(-v);
      ParseDigitsInverse(-w);
    } else {
      ParseDigitsInverse(v);
      ParseDigitsInverse(w);
    }
  }

  /** Different variants get different names. */
  lemma KernelNameInjective(v: int, w: int)
    requires KernelName(v) == KernelName(w)
    ensures v == w
  {
    assert FormatInt(v) == KernelName(v)[|PREFIX|..] == KernelName(w)[|PREFIX|..] == FormatInt(w);
    FormatIntInjective(v, w);
  }

  /** The name is one of the four entry points exactly for the variants 1 .. 4. */
  lemma KernelNameIsEntryPoint(variant: int)
    ensures KernelName(variant) in ENTRY_POINTS <==> 1 <= variant <= 4
  {
    assert KernelName(1) == ENTRY_POINTS[0];
    assert KernelName(2) == ENTRY_POINTS[1];
    assert KernelName(3) == ENTRY_POINTS[2];
    assert KernelName(4) == ENTRY_POINTS[3];
    if KernelName(variant) in ENTRY_POINTS {
      var k :| 0 <= k < 4 && ENTRY_POINTS[k] == KernelName(variant);
      KernelNameInjective(variant, k + 1);
    }
  }

  /** For the variants main runs, 1 .. 4, the name is the prefix and one digit, 10 bytes with its NUL. */
  lemma VariantNames(variant: int)
    requires 1 <= variant <= 4
    ensures KernelName(variant) == PREFIX + [DigitChar(variant)]
    ensures |KernelName(variant)| + 1 == 10 && FitsNameBuffer(KernelName(variant))
  {
  }
}
