/** Lower-case hexadecimal rendering as done by printf's `%lx`: the digits
    0-9a-f, most significant first, with no leading zeros (zero itself is
    the single digit "0"), together with the inverse reading. */
module Hex {

  function Pow16(k: nat): (r: nat)
    ensures r >= 1
  {
    if k == 0 then 1 else 16 * Pow16(k - 1)
  }

  predicate IsDigit(ch: char)
  {
    ('0' <= ch <= '9') || ('a' <= ch <= 'f')
  }

  predicate AllDigits(s: string)
  {
    forall i :: 0 <= i < |s| ==> IsDigit(s[i])
  }

  function DigitValue(ch: char): (d: nat)
    requires IsDigit(ch)
    ensures d < 16
  {
    if ch <= '9' then ch as int - '0' as int else ch as int - 'a' as int + 10
  }

  function DigitChar(d: nat): (ch: char)
    requires d < 16
    ensures IsDigit(ch) && DigitValue(ch) == d
    ensures ch == '0' <==> d == 0
  {
    if d < 10 then ('0' as int + d) as char else ('a' as int + d - 10) as char
  }

  /** `%lx` of `n`. */
  function Render(n: nat): (s: string)
    ensures 1 <= |s|
    ensures AllDigits(s)
    ensures n > 0 ==> s[0] != '0'
    decreases n
  {
    if n < 16 then [DigitChar(n)] else Render(n / 16) + [DigitChar(n % 16)]
  }

  /** The number a string of hex digits denotes, most significant first. */
  function Value(s: string): nat
    requires AllDigits(s)
  {
    if s == [] then 0 else Value(s[..|s| - 1]) * 16 + DigitValue(s[|s| - 1])
  }

  /** Reading back a rendered number gives the number. */
  lemma {:induction false} ValueOfRender(n: nat)
    ensures Value(Render(n)) == n
    decreases n
  {
    var s := Render(n);
    if n < 16 {
      assert s[..|s| - 1] == [];
    } else {
      assert s[..|s| - 1] == Render(n / 16);
      ValueOfRender(n / 16);
    }
  }

  /** Distinct numbers render differently. */
  lemma RenderInjective(m: nat, n: nat)
    requires Render(m) == Render(n)
    ensures m == n
  {
    ValueOfRender(m);
    ValueOfRender(n);
  }

  /** A number below 16^k renders in at most k digits. */
  lemma {:induction false} RenderLengthAtMost(n: nat, k: nat)
    requires 1 <= k && n < Pow16(k)
    ensures |Render(n)| <= k
    decreases n
  {
    if n >= 16 {
      assert k >= 2;
      assert n / 16 < Pow16(k - 1);
      RenderLengthAtMost(n / 16, k - 1);
    }
  }

  /** A number at or above 16^(k-1) needs at least k digits. */
  lemma {:induction false} RenderLengthAtLeast(n: nat, k: nat)
    requires 1 <= k && Pow16(k - 1) <= n
    ensures k <= |Render(n)|
    decreases n
  {
    if k >= 2 {
      assert n >= 16;
      assert Pow16(k - 2) <= n / 16;
      RenderLengthAtLeast(n / 16, k - 1);
    }
  }

  /** The two powers the 64-bit bounds need. */
  lemma Pow16Values()
    ensures Pow16(15) == 0x1000_0000_0000_0000
    ensures Pow16(16) == 0x1_0000_0000_0000_0000
  {
    assert Pow16(4) == 0x1_0000;
    assert Pow16(8) == 0x1_0000_0000 by {
      assert Pow16(5) == 0x10_0000;
      assert Pow16(6) == 0x100_0000;
      assert Pow16(7) == 0x1000_0000;
    }
    assert Pow16(12) == 0x1_0000_0000_0000 by {
      assert Pow16(9) == 0x10_0000_0000;
      assert Pow16(10) == 0x100_0000_0000;
      assert Pow16(11) == 0x1000_0000_0000;
    }
    assert Pow16(13) == 0x10_0000_0000_0000;
    assert Pow16(14) == 0x100_0000_0000_0000;
  }

  /** Every 64-bit value renders in at most sixteen digits, and the largest
      ones in exactly sixteen. */
  lemma RenderLength64(n: nat)
    requires n < 0x1_0000_0000_0000_0000
    ensures |Render(n)| <= 16
    ensures n >= 0x1000_0000_0000_0000 ==> |Render(n)| == 16
  {
    Pow16Values();
    RenderLengthAtMost(n, 16);
    if n >= 0x1000_0000_0000_0000 {
      RenderLengthAtLeast(n, 16);
    }
  }

  /** Values below 2^60 render in at most fifteen digits. */
  lemma RenderLength60(n: nat)
    requires n < 0x1000_0000_0000_0000
    ensures |Render(n)| <= 15
  {
    Pow16Values();
    RenderLengthAtMost(n, 15);
  }

  /** The longest prefix of `s` made of hex digits. */
  function DigitPrefix(s: string): (p: string)
    ensures p <= s && AllDigits(p)
    ensures |p| < |s| ==> !IsDigit(s[|p|])
  {
    if s == [] || !IsDigit(s[0]) then [] else [s[0]] + DigitPrefix(s[1..])
  }

  /** A rendered number is recovered as the digit prefix of any text that
      follows it with a non-digit (or with nothing). */
  lemma {:induction false} DigitPrefixOfRender(digits: string, rest: string)
    requires AllDigits(digits)
    requires rest == [] || !IsDigit(rest[0])
    ensures DigitPrefix(digits + rest) == digits
    decreases |digits|
  {
    if digits != [] {
      assert (digits + rest)[1..] == digits[1..] + rest;
      DigitPrefixOfRender(digits[1..], rest);
    } else {
      assert digits + rest == rest;
    }
  }
}
