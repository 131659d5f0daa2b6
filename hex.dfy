/**
 * The text form of the hash value: each of the eight words written with
 * `hex << setw(8) << setfill('0')`, that is as exactly eight lower-case
 * hexadecimal digits, most significant first, padded on the left with
 * '0'.
 */
module Hex {
  import opened Words

  /** 16^n, the range of n hexadecimal digits; the same number as `Pow2(4 * n)` (`Pow16Pow2`). */
  function Pow16(n: nat): (r: nat)
    ensures r > 0
  {
    if n == 0 then 1 else 16 * Pow16(n - 1)
  }

  lemma {:induction false} Pow16Pow2(n: nat)
    ensures Pow16(n) == Pow2(4 * n)
  {
    if n > 0 {
      Pow16Pow2(n - 1);
      var m := 4 * (n - 1);
      calc {
        Pow2(4 * n);
        2 * Pow2(m + 3);
        4 * Pow2(m + 2);
        8 * Pow2(m + 1);
        16 * Pow2(m);
      }
    }
  }

  lemma Pow16Word()
    ensures Pow16(8) == WORD_MOD
  {
    calc {
      Pow16(8);
      16 * Pow16(7);
      256 * Pow16(6);
      0x1000 * Pow16(5);
      0x1_0000 * Pow16(4);
      0x10_0000 * Pow16(3);
      0x100_0000 * Pow16(2);
      0x1000_0000 * Pow16(1);
      WORD_MOD;
    }
  }

  /** The characters the `hex` manipulator writes: '0'..'9' and 'a'..'f'. */
  predicate IsHexChar(c: char)
  {
    '0' <= c <= '9' || 'a' <= c <= 'f'
  }

  /** The value of a lower-case hexadecimal digit. */
  function DigitValue(c: char): (d: nat)
    requires IsHexChar(c)
    ensures d < 16
  {
    if c <= '9' then c as int - '0' as int else c as int - 'a' as int + 10
  }

  /** The digit for d < 16, in lower case. */
  function HexChar(d: nat): (c: char)
    requires d < 16
    ensures IsHexChar(c) && DigitValue(c) == d
  {
    if d < 10 then ('0' as int + d) as char else ('a' as int + d - 10) as char
  }

  /** The `n` low hexadecimal digits of `v`, most significant first. */
  function HexDigits(v: nat, n: nat): (s: string)
    ensures |s| == n
    ensures forall i :: 0 <= i < n ==> IsHexChar(s[i])
  {
    if n == 0 then [] else HexDigits(v / 16, n - 1) + [HexChar(v % 16)]
  }

  /** The number a string of hexadecimal digits denotes. */
  function HexValue(s: string): (v: nat)
    requires forall i :: 0 <= i < |s| ==> IsHexChar(s[i])
    ensures v < Pow16(|s|)
  {
    if |s| == 0 then 0 else HexValue(s[..|s| - 1]) * 16 + DigitValue(s[|s| - 1])
  }

  /** Reading the digits back gives the number, when it fits in n digits. */
  lemma {:induction false} HexValueHexDigits(v: nat, n: nat)
    requires v < Pow16(n)
    ensures HexValue(HexDigits(v, n)) == v
  {
    if n > 0 {
      var s := HexDigits(v, n);
      assert s[..n - 1] == HexDigits(v / 16, n - 1);
      HexValueHexDigits(v / 16, n - 1);
    }
  }

  /** A number below 16^k written with n >= k digits starts with n - k '0's (`setfill('0')`). */
  lemma {:induction false} HexDigitsLeadingZeros(v: nat, n: nat, k: nat)
    requires v < Pow16(k) && k <= n
    ensures forall i :: 0 <= i < n - k ==> HexDigits(v, n)[i] == '0'
  {
    if k < n {
      if k == 0 {
        assert v / 16 == 0;
        HexDigitsLeadingZeros(v / 16, n - 1, 0);
      } else {
        HexDigitsLeadingZeros(v / 16, n - 1, k - 1);
      }
    }
  }

  /** One word as `setw(8) << setfill('0') << hex` writes it. */
  function HexWord(v: Word): (s: string)
    ensures |s| == 8
  {
    HexDigits(v, 8)
  }

  /** The words of the hash value, each written as eight digits, in order. */
  function HexDigest(h: seq<Word>): (s: string)
    ensures |s| == 8 * |h|
  {
    if |h| == 0 then "" else HexDigest(h[..|h| - 1]) + HexWord(h[|h| - 1])
  }

  /** The text only holds lower-case hexadecimal digits. */
  lemma {:induction false} HexDigestChars(h: seq<Word>)
    ensures forall i :: 0 <= i < |HexDigest(h)| ==> IsHexChar(HexDigest(h)[i])
  {
    if |h| > 0 {
      HexDigestChars(h[..|h| - 1]);
      var s, t := HexDigest(h[..|h| - 1]), HexWord(h[|h| - 1]);
      forall i | 0 <= i < |s + t|
        ensures IsHexChar((s + t)[i])
      {
        if i < |s| {
          assert (s + t)[i] == s[i];
        } else {
          assert (s + t)[i] == t[i - |s|];
        }
      }
    }
  }

  /** Word j of the hash value is written at characters 8j..8j+7. */
  lemma {:induction false} HexDigestSlice(h: seq<Word>, j: nat)
    requires j < |h|
    ensures HexDigest(h)[8 * j..8 * j + 8] == HexWord(h[j])
  {
    var init := h[..|h| - 1];
    var s := HexDigest(init);
    if j < |h| - 1 {
      HexDigestSlice(init, j);
      assert HexDigest(h)[8 * j..8 * j + 8] == s[8 * j..8 * j + 8];
    } else {
      assert HexDigest(h)[8 * j..8 * j + 8] == HexDigest(h)[|s|..];
    }
  }

  /**
   * Reading the text back, eight digits per word, gives the hash value:
   * different hash values are written differently.
   */
  lemma HexDigestInjective(h: seq<Word>, h': seq<Word>)
    requires HexDigest(h) == HexDigest(h')
    ensures h == h'
  {
    assert |h| == |h'|;
    Pow16Word();
    forall j | 0 <= j < |h|
      ensures h[j] == h'[j]
    {
      HexDigestSlice(h, j);
      HexDigestSlice(h', j);
      HexValueHexDigits(h[j], 8);
      HexValueHexDigits(h'[j], 8);
    }
  }
}
