/** The GSTIN check digit: what the checksum loop computes, and which typing errors it detects. */
module Gstin {

  /** Position in 0-9A-Z, or -1. */
  function Code(c: char): int {
    if '0' <= c <= '9' then c as int - '0' as int
    else if 'A' <= c <= 'Z' then c as int - 'A' as int + 10
    else -1
  }

  function Symbol(k: nat): (c: char)
    requires k < 36
    ensures Code(c) == k
  {
    if k < 10 then (k + '0' as int) as char else (k - 10 + 'A' as int) as char
  }

  const ALPHABET := "0123456789ABCDEFGHIJKLMNOPQRSTUVWXYZ"

  /** A character's code is where it stands in the alphabet, and -1 when it does not. */
  lemma CodeIsPosition(c: char)
    ensures |ALPHABET| == 36
    ensures Code(c) == -1 <==> c !in ALPHABET
    ensures c in ALPHABET ==> 0 <= Code(c) < 36 && ALPHABET[Code(c)] == c
  {
    if Code(c) >= 0 {
      AlphabetAt(Code(c));
      SymbolInvertsCode(c);
    } else {
      forall k | 0 <= k < 36
        ensures ALPHABET[k] != c
      {
        AlphabetAt(k);
      }
    }
  }

  lemma AlphabetAt(k: nat)
    requires k < 36
    ensures |ALPHABET| == 36 && ALPHABET[k] == Symbol(k)
  {
  }

  lemma SymbolInvertsCode(c: char)
    requires Code(c) >= 0
    ensures Code(c) < 36 && Symbol(Code(c)) == c
  {
  }

  /** The two base-36 digits of a product, added together. */
  function DigitSum(product: nat): nat {
    product / 36 + product % 36
  }

  /** Counted from the right, every other character starting at the last one is doubled. */
  function Weighted(position: nat, code: nat): nat {
    if position % 2 == 1 then DigitSum(2 * code) else DigitSum(code)
  }

  predicate AlphabetOnly(s: string) {
    forall k | 0 <= k < |s| :: Code(s[k]) >= 0
  }

  ghost function WeightedSum(s: string): nat
    requires AlphabetOnly(s)
  {
    if s == "" then 0
    else WeightedSum(s[..|s| - 1]) + Weighted(|s| - 1, Code(s[|s| - 1]))
  }

  /** All 15 characters are in the alphabet and data plus check digit is 0 modulo 36. */
  ghost predicate Valid(gstin: string) {
    && |gstin| == 15
    && AlphabetOnly(gstin)
    && (WeightedSum(gstin[..14]) + Code(gstin[14])) % 36 == 0
  }

  lemma ExpectedDigit(sum: nat, c: char)
    ensures Symbol((36 - sum % 36) % 36) == c <==> Code(c) >= 0 && (sum + Code(c)) % 36 == 0
  {
    if Code(c) >= 0 {
      SymbolInvertsCode(c);
    }
  }

  method IsValidChecksum(gstin: string) returns (ok: bool)
    ensures ok <==> Valid(gstin)
  {
    if |gstin| != 15 {
      return false;
    }
    var factor, sum, i := 2, 0, 13;
    while i >= 0
      invariant -1 <= i <= 13
      invariant factor == if i % 2 == 1 then 2 else 1
      invariant forall k | i < k <= 13 :: Code(gstin[k]) >= 0
      invariant sum >= 0
      invariant AlphabetOnly(gstin[..i + 1]) ==>
                  AlphabetOnly(gstin[..14]) && WeightedSum(gstin[..14]) == WeightedSum(gstin[..i + 1]) + sum
    {
      var codePoint := Code(gstin[i]);
      if codePoint < 0 {
        return false;
      }
      assert gstin[..i + 1][..i] == gstin[..i];
      SymbolInvertsCode(gstin[i]);
      var product := factor * codePoint;
      assert DigitSum(product) == Weighted(i, codePoint);
      factor := if factor == 2 then 1 else 2;
      sum := sum + DigitSum(product);
      i := i - 1;
    }
    assert gstin[..0] == "";
    ExpectedDigit(sum, gstin[14]);
    ok := Symbol((36 - sum % 36) % 36) == gstin[14];
  }

  // ---- Detection ------------------------------------------------------------

  lemma DoubledDigit(a: nat)
    requires a < 36
    ensures DigitSum(a) == a
    ensures DigitSum(2 * a) == if a < 18 then 2 * a else 2 * a - 35
  {
  }

  /** Changing one term of a sum that is 0 modulo 36 by less than 36 leaves it non-zero. */
  lemma SmallChangeIsVisible(sum: int, before: nat, after: nat)
    requires before < 36 && after < 36 && before != after && sum % 36 == 0
    ensures (sum - before + after) % 36 != 0
  {
  }

  /** Doubling and adding digits permutes 0..35, so it loses nothing. */
  lemma DoublingPermutes(a: nat, b: nat)
    requires a < 36 && b < 36
    ensures DigitSum(2 * a) < 36
    ensures DigitSum(2 * a) == DigitSum(2 * b) ==> a == b
    ensures exists c: nat :: c < 36 && DigitSum(2 * c) == a
  {
    DoubledDigit(a);
    DoubledDigit(b);
    var c := if a % 2 == 0 then a / 2 else (a + 35) / 2;
    DoubledDigit(c);
    assert DigitSum(2 * c) == a;
  }

  lemma {:induction false} WeightedSumUpdate(s: string, k: nat, c: char)
    requires AlphabetOnly(s) && k < |s| && Code(c) >= 0
    ensures AlphabetOnly(s[k := c])
    ensures WeightedSum(s[k := c]) == WeightedSum(s) - Weighted(k, Code(s[k])) + Weighted(k, Code(c))
  {
    var t := s[k := c];
    if k == |s| - 1 {
      assert t[..k] == s[..k];
    } else {
      WeightedSumUpdate(s[..|s| - 1], k, c);
      assert t[..|s| - 1] == s[..|s| - 1][k := c];
    }
  }

  lemma {:induction false} ZerosWeighNothing(s: string)
    requires forall k | 0 <= k < |s| :: s[k] == '0'
    ensures AlphabetOnly(s) && WeightedSum(s) == 0
  {
    if s != "" {
      ZerosWeighNothing(s[..|s| - 1]);
    }
  }

  /**
   * The weights alternate and the last data character counts double: fourteen zeros but for a single 1
   * have the check digit Y where it is doubled and Z where it is not.
   */
  lemma WeightsAlternate(s: string, k: nat, c: char)
    requires |s| == 14 && k < 14 && forall i | 0 <= i < 14 :: s[i] == if i == k then '1' else '0'
    ensures Valid(s + [c]) <==> c == if (13 - k) % 2 == 0 then 'Y' else 'Z'
  {
    var zeros := s[k := '0'];
    ZerosWeighNothing(zeros);
    WeightedSumUpdate(zeros, k, '1');
    assert zeros[k := '1'] == s && (s + [c])[..14] == s && (s + [c])[14] == c;
    assert forall i | 0 <= i < 14 :: (s + [c])[i] == s[i];
    CodesNameCharacters(c);
  }

  /** Replacing any one character of a valid number by any other character is detected. */
  lemma SubstitutionIsDetected(gstin: string, k: nat, c: char)
    requires Valid(gstin) && k < 15 && c != gstin[k]
    ensures !Valid(gstin[k := c])
  {
    if Code(c) < 0 {
      assert Code(gstin[k := c][k]) < 0;
    } else {
      SubstitutedSum(gstin, k, c);
    }
  }

  lemma SubstitutedSum(gstin: string, k: nat, c: char)
    requires Valid(gstin) && k < 15 && c != gstin[k] && Code(c) >= 0
    ensures AlphabetOnly(gstin[k := c])
    ensures (WeightedSum(gstin[k := c][..14]) + Code(gstin[k := c][14])) % 36 != 0
  {
    var changed := gstin[k := c];
    var total := WeightedSum(gstin[..14]) + Code(gstin[14]);
    SymbolInvertsCode(c);
    SymbolInvertsCode(gstin[k]);
    if k < 14 {
      WeightedSumUpdate(gstin[..14], k, c);
      assert changed[..14] == gstin[..14][k := c];
      WeightedIsInjective(k, Code(gstin[k]), Code(c));
      SmallChangeIsVisible(total, Weighted(k, Code(gstin[k])), Weighted(k, Code(c)));
    } else {
      assert changed[..14] == gstin[..14];
      SmallChangeIsVisible(total, Code(gstin[14]), Code(c));
    }
  }

  lemma WeightedIsInjective(k: nat, a: nat, b: nat)
    requires a < 36 && b < 36 && a != b
    ensures Weighted(k, a) < 36 && Weighted(k, b) < 36 && Weighted(k, a) != Weighted(k, b)
  {
    DoubledDigit(a);
    DoubledDigit(b);
  }

  lemma SwapKeepsSum(gstin: string, k: nat)
    requires Valid(gstin) && k < 14 && gstin[k] != gstin[k + 1]
    ensures var a, b := Code(gstin[k]), Code(gstin[k + 1]);
            Valid(gstin[k := gstin[k + 1]][k + 1 := gstin[k]]) <==> (a == 0 && b == 35) || (a == 35 && b == 0)
  {
    SymbolInvertsCode(gstin[k]);
    SymbolInvertsCode(gstin[k + 1]);
    SwappedSum(gstin, k);
    SwapArithmetic(WeightedSum(gstin[..14]) + Code(gstin[14]), Code(gstin[k]), Code(gstin[k + 1]), k);
  }

  /** Swapping two different neighbours is detected, except for the pair 0 and Z. */
  lemma SwapIsDetectedExceptZeroZ(gstin: string, k: nat)
    requires Valid(gstin) && k < 14 && gstin[k] != gstin[k + 1]
    ensures Valid(gstin[k := gstin[k + 1]][k + 1 := gstin[k]])
            <==> (gstin[k] == '0' && gstin[k + 1] == 'Z') || (gstin[k] == 'Z' && gstin[k + 1] == '0')
  {
    var a, b := gstin[k], gstin[k + 1];
    SymbolInvertsCode(a);
    SymbolInvertsCode(b);
    SwapKeepsSum(gstin, k);
    CodesNameCharacters(a);
    CodesNameCharacters(b);
  }

  lemma CodesNameCharacters(c: char)
    ensures (c == '0' <==> Code(c) == 0) && (c == 'Y' <==> Code(c) == 34) && (c == 'Z' <==> Code(c) == 35)
  {
  }

  /** What a swap does to the checked total: the two weights trade places. */
  lemma SwappedSum(gstin: string, k: nat)
    requires Valid(gstin) && k < 14
    ensures var s := gstin[k := gstin[k + 1]][k + 1 := gstin[k]];
            var a, b := Code(gstin[k]), Code(gstin[k + 1]);
            && AlphabetOnly(s)
            && WeightedSum(s[..14]) + Code(s[14]) - WeightedSum(gstin[..14]) - Code(gstin[14])
               == Weighted(k, b) - Weighted(k, a) + Weighted(k + 1, a) - Weighted(k + 1, b)
  {
    var a, b := gstin[k], gstin[k + 1];
    var swapped := gstin[k := b][k + 1 := a];
    SymbolInvertsCode(a);
    SymbolInvertsCode(b);
    WeightedSumUpdate(gstin[..14], k, b);
    if k < 13 {
      WeightedSumUpdate(gstin[..14][k := b], k + 1, a);
      assert swapped[..14] == gstin[..14][k := b][k + 1 := a];
    } else {
      assert swapped[..14] == gstin[..14][k := b];
      DoubledDigit(Code(a));
      DoubledDigit(Code(b));
    }
  }

  /** How far doubling moves a digit, modulo 36. */
  function Gap(a: nat): nat
    requires a < 36
  {
    if a < 18 then a else a + 1
  }

  lemma SwapArithmetic(total: int, a: nat, b: nat, k: nat)
    requires a < 36 && b < 36 && a != b && total % 36 == 0
    ensures (total + (Weighted(k, b) - Weighted(k, a) + Weighted(k + 1, a) - Weighted(k + 1, b))) % 36 == 0
            <==> (a == 0 && b == 35) || (a == 35 && b == 0)
  {
    DoubledDigit(a);
    DoubledDigit(b);
    var shift := Weighted(k, b) - Weighted(k, a) + Weighted(k + 1, a) - Weighted(k + 1, b);
    var gap := if k % 2 == 1 then Gap(b) - Gap(a) else Gap(a) - Gap(b);
    assert shift == gap || shift == gap - 36 || shift == gap + 36;
    ShiftVanishes(total, shift, gap);
  }

  lemma ShiftVanishes(total: int, shift: int, gap: int)
    requires total % 36 == 0 && -36 <= gap <= 36
    requires shift == gap || shift == gap - 36 || shift == gap + 36
    ensures (total + shift) % 36 == 0 <==> gap == 0 || gap == 36 || gap == -36
  {
  }

  /** Every 14 alphabet characters have exactly one check digit. */
  lemma ExactlyOneCheckDigit(data: string)
    requires |data| == 14 && AlphabetOnly(data)
    ensures exists c: char :: Valid(data + [c]) && forall d: char | Valid(data + [d]) :: d == c
  {
    var c := Symbol((36 - WeightedSum(data) % 36) % 36);
    ExpectedDigit(WeightedSum(data), c);
    assert (data + [c])[..14] == data;
    assert Valid(data + [c]);
    forall d: char | Valid(data + [d])
      ensures d == c
    {
      assert (data + [c])[14 := d] == data + [d];
      if d != c {
        SubstitutionIsDetected(data + [c], 14, d);
      }
    }
  }
}
