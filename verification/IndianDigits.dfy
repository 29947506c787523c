/** Digit grouping on an Indian invoice: the last three digits, then pairs. */
module IndianDigits {
  import opened Numbers
  import opened Options
  import opened Money
  import opened Text

  // ---- Decimal digits -------------------------------------------------------------------

  function DigitValue(c: char): int {
    c as int - '0' as int
  }

  predicate IsDigit(c: char) {
    '0' <= c <= '9'
  }

  predicate AllDigits(s: string) {
    forall k | 0 <= k < |s| :: IsDigit(s[k])
  }

  function Digits(n: nat): string {
    if n < 10 then [Digit(n)] else Digits(n / 10) + [Digit(n % 10)]
  }

  function Value(s: string): int {
    if s == "" then 0 else 10 * Value(s[..|s| - 1]) + DigitValue(s[|s| - 1])
  }

  lemma DigitReads(d: nat)
    requires d < 10
    ensures IsDigit(Digit(d)) && DigitValue(Digit(d)) == d
  {
  }

  lemma OneMoreDigit(s: string, d: nat)
    requires d < 10
    ensures Value(s + [Digit(d)]) == 10 * Value(s) + d && (AllDigits(s) ==> AllDigits(s + [Digit(d)]))
  {
    DigitReads(d);
    assert (s + [Digit(d)])[..|s|] == s;
  }

  lemma {:induction false} DigitsRead(n: nat)
    ensures Value(Digits(n)) == n && AllDigits(Digits(n)) && Digits(n) != ""
  {
    if n < 10 {
      OneMoreDigit("", n);
      assert "" + [Digit(n)] == [Digit(n)];
    } else {
      DigitsRead(n / 10);
      OneMoreDigit(Digits(n / 10), n % 10);
    }
  }

  /** The number without its last `places` digits. */
  function Whole(n: nat, places: nat): nat {
    if places == 0 then n else Whole(n / 10, places - 1)
  }

  lemma TenTimes(q: nat, p: nat, v: int, d: nat)
    ensures 10 * v + d + q * (10 * p) == 10 * (v + q * p) + d
  {
    assert q * (10 * p) == 10 * (q * p);
  }

  lemma {:induction false} PaddedReads(n: nat, width: nat)
    ensures AllDigits(Padded(n, width)) && |Padded(n, width)| == width
    ensures Value(Padded(n, width)) + Whole(n, width) * Pow10(width) == n
    decreases width
  {
    if width > 0 {
      PaddedReads(n / 10, width - 1);
      OneMoreDigit(Padded(n / 10, width - 1), n % 10);
      TenTimes(Whole(n / 10, width - 1), Pow10(width - 1), Value(Padded(n / 10, width - 1)), n % 10);
    }
  }

  // ---- Formatting -------------------------------------------------------------------------

  function Fraction(n: nat, places: nat): string {
    if places == 0 then "" else "." + Padded(n, places)
  }

  /** `toFixed`: the whole part, and the fraction when there are places for one. */
  function ToFixed(units: nat, places: nat): string {
    Digits(Whole(units, places)) + Fraction(units, places)
  }

  /** A comma wherever a digit has a whole number of pairs after it: `/\B(?=(\d{2})+(?!\d))/g`. */
  function CommasBetweenPairs(s: string): string {
    if |s| <= 1 then s
    else [s[0]] + (if (|s| - 1) % 2 == 0 then "," else "") + CommasBetweenPairs(s[1..])
  }

  function Grouped(whole: string): string {
    if |whole| <= 3 then whole
    else CommasBetweenPairs(whole[..|whole| - 3]) + "," + whole[|whole| - 3..]
  }

  function Sign(x: Decimal): string {
    if x.units < 0 then "-" else ""
  }

  function FormatIndianDigits(value: Option<Decimal>, decimals: nat): string {
    match value
    case None => "0.00"
    case Some(x) =>
      var parts := Split(ToFixed(Rounded(x, decimals), decimals), '.');
      var fraction := if |parts| > 1 then parts[1] else "";
      if fraction != "" then Sign(x) + Grouped(parts[0]) + "." + fraction else Sign(x) + Grouped(parts[0])
  }

  // ---- The groups ----------------------------------------------------------------------------

  function Flat(groups: seq<string>): string {
    if groups == [] then "" else groups[0] + Flat(groups[1..])
  }

  /** A leading group of one or two, then pairs. */
  predicate Paired(groups: seq<string>) {
    && groups != [] && 1 <= |groups[0]| <= 2
    && forall k | 1 <= k < |groups| :: |groups[k]| == 2
  }

  /** Up to three digits, or a leading group of one or two, pairs, and three digits. */
  predicate IndianGroups(groups: seq<string>) {
    var n := |groups|;
    && groups != []
    && if n == 1 then 1 <= |groups[0]| <= 3
       else |groups[n - 1]| == 3 && Paired(groups[..n - 1])
  }

  lemma SplitAfterChar(c: char, t: string)
    requires c != ','
    ensures Split([c] + t, ',') == [[c] + Split(t, ',')[0]] + Split(t, ',')[1..]
    ensures Split([c] + "," + t, ',') == [[c]] + Split(t, ',')
  {
    assert ([c] + t)[1..] == t;
    assert [c] + "," + t == [c] + ("," + t);
    assert ([c] + ("," + t))[1..] == "," + t && ("," + t)[1..] == t;
    assert Split("," + t, ',') == [""] + Split(t, ',');
    assert [c] + "" == [c];
  }

  /** A digit put before the groups, as a group of its own or into the first one. */
  lemma DigitBeforeGroups(c: char, gs: seq<string>)
    requires Paired(gs)
    ensures Paired([[c]] + gs) <==> |gs[0]| == 2
    ensures Flat([[c]] + gs) == [c] + Flat(gs)
    ensures |gs[0]| == 1 ==> Paired([[c] + gs[0]] + gs[1..])
    ensures Flat([[c] + gs[0]] + gs[1..]) == [c] + Flat(gs)
  {
    assert ([[c]] + gs)[1..] == gs && ([[c] + gs[0]] + gs[1..])[1..] == gs[1..];
    Associates([c], gs[0], Flat(gs[1..]));
    if Paired([[c]] + gs) {
      assert ([[c]] + gs)[1] == gs[0];
    }
  }

  lemma {:induction false} PairsAreGroups(s: string)
    requires s != "" && AllDigits(s)
    ensures var gs := Split(CommasBetweenPairs(s), ',');
            && Paired(gs) && Flat(gs) == s && (|gs[0]| == 1 <==> |s| % 2 == 1)
  {
    if |s| == 1 {
      SplitWithoutSeparator(s, ',');
      assert Flat([s]) == s + Flat([]);
    } else {
      assert s == [s[0]] + s[1..];
      var rest := CommasBetweenPairs(s[1..]);
      SplitAfterChar(s[0], rest);
      assert [s[0]] + "" + rest == [s[0]] + rest;
      PairsAreGroups(s[1..]);
      DigitBeforeGroups(s[0], Split(rest, ','));
    }
  }

  lemma {:induction false} FlatOneMore(groups: seq<string>, last: string)
    ensures Flat(groups + [last]) == Flat(groups) + last
  {
    if groups == [] {
      assert ([] + [last])[1..] == [];
      assert Flat([last]) == last + Flat([]) == last;
      assert groups + [last] == [last];
    } else {
      FlatOneMore(groups[1..], last);
      assert (groups + [last])[1..] == groups[1..] + [last];
      Associates(groups[0], Flat(groups[1..]), last);
    }
  }

  lemma NoCommaInDigits(s: string)
    requires AllDigits(s)
    ensures ',' !in s && '.' !in s && '-' !in s
  {
  }

  /** The whole part is grouped the Indian way, for any number of digits, and no digit is lost. */
  lemma GroupsAreIndian(whole: string)
    requires whole != "" && AllDigits(whole)
    ensures var gs := Split(Grouped(whole), ','); IndianGroups(gs) && Flat(gs) == whole
  {
    var n := |whole|;
    NoCommaInDigits(whole);
    if n <= 3 {
      SplitWithoutSeparator(whole, ',');
      FlatOneMore([], whole);
      assert [] + [whole] == [whole];
    } else {
      var rest, last := whole[..n - 3], whole[n - 3..];
      PairsAreGroups(rest);
      SplitAtSeparator(CommasBetweenPairs(rest), last, ',');
      SplitWithoutSeparator(last, ',');
      var gs := Split(CommasBetweenPairs(rest), ',');
      FlatOneMore(gs, last);
      assert (gs + [last])[..|gs|] == gs;
      assert whole == rest + last;
    }
  }

  // ---- Reading back -----------------------------------------------------------------------------

  function WithoutCommas(s: string): string {
    if s == "" then "" else (if s[0] == ',' then "" else [s[0]]) + WithoutCommas(s[1..])
  }

  lemma {:induction false} WithoutCommasSplits(a: string, b: string)
    ensures WithoutCommas(a + b) == WithoutCommas(a) + WithoutCommas(b)
  {
    if a == "" {
      assert a + b == b;
    } else {
      WithoutCommasSplits(a[1..], b);
      assert (a + b)[1..] == a[1..] + b;
      Associates(if a[0] == ',' then "" else [a[0]], WithoutCommas(a[1..]), WithoutCommas(b));
    }
  }

  lemma {:induction false} NothingToRemove(s: string)
    requires ',' !in s
    ensures WithoutCommas(s) == s
  {
    if s != "" {
      NothingToRemove(s[1..]);
    }
  }

  lemma {:induction false} PairsWithoutCommas(s: string)
    requires ',' !in s
    ensures WithoutCommas(CommasBetweenPairs(s)) == s
  {
    if |s| <= 1 {
      NothingToRemove(s);
    } else {
      var comma := if (|s| - 1) % 2 == 0 then "," else "";
      var rest := CommasBetweenPairs(s[1..]);
      PairsWithoutCommas(s[1..]);
      NothingToRemove([s[0]]);
      WithoutCommasSplits([s[0]] + comma, rest);
      WithoutCommasSplits([s[0]], comma);
      assert WithoutCommas(comma) == "" by {
        assert ","[1..] == "";
      }
      assert [s[0]] + "" == [s[0]];
    }
  }

  lemma GroupedWithoutCommas(whole: string)
    requires ',' !in whole
    ensures WithoutCommas(Grouped(whole)) == whole
  {
    var n := |whole|;
    if n <= 3 {
      NothingToRemove(whole);
    } else {
      PairsWithoutCommas(whole[..n - 3]);
      NothingToRemove(whole[n - 3..]);
      AroundComma(CommasBetweenPairs(whole[..n - 3]), whole[n - 3..]);
      assert whole == whole[..n - 3] + whole[n - 3..];
    }
  }

  lemma AroundComma(a: string, b: string)
    ensures WithoutCommas(a + "," + b) == WithoutCommas(a) + WithoutCommas(b)
  {
    Associates(a, ",", b);
    WithoutCommasSplits(a, "," + b);
    assert ("," + b)[1..] == b;
    assert "" + WithoutCommas(b) == WithoutCommas(b);
  }

  lemma TwoParts(whole: string, fraction: string)
    requires '.' !in whole && '.' !in fraction
    ensures Split(whole + ("." + fraction), '.') == [whole, fraction]
  {
    assert whole + ("." + fraction) == whole + ['.'] + fraction;
    SplitAtSeparator(whole, fraction, '.');
    SplitWithoutSeparator(whole, '.');
    SplitWithoutSeparator(fraction, '.');
  }

  lemma FixedSplits(units: nat, places: nat)
    ensures Split(ToFixed(units, places), '.')
            == if places == 0 then [Digits(Whole(units, places))] else [Digits(Whole(units, places)), Padded(units, places)]
  {
    var whole, fraction := Digits(Whole(units, places)), Padded(units, places);
    DigitsRead(Whole(units, places));
    PaddedReads(units, places);
    NoCommaInDigits(whole);
    NoCommaInDigits(fraction);
    if places == 0 {
      assert whole + "" == whole;
      SplitWithoutSeparator(whole, '.');
    } else {
      TwoParts(whole, fraction);
    }
  }

  /** The formatted amount: sign, Indian groups, and exactly the places asked for. */
  lemma FormattedShape(x: Decimal, decimals: nat)
    ensures var n := Rounded(x, decimals);
            var whole := Digits(Whole(n, decimals));
            && FormatIndianDigits(Some(x), decimals) == Sign(x) + Grouped(whole) + Fraction(n, decimals)
            && IndianGroups(Split(Grouped(whole), ',')) && Flat(Split(Grouped(whole), ',')) == whole
            && |Fraction(n, decimals)| == if decimals == 0 then 0 else decimals + 1
  {
    var n := Rounded(x, decimals);
    FixedSplits(n, decimals);
    DigitsRead(Whole(n, decimals));
    PaddedReads(n, decimals);
    GroupsAreIndian(Digits(Whole(n, decimals)));
    if decimals == 0 {
      assert Sign(x) + Grouped(Digits(n)) + "" == Sign(x) + Grouped(Digits(n));
    } else {
      Associates(Sign(x) + Grouped(Digits(Whole(n, decimals))), ".", Padded(n, decimals));
    }
  }

  /** The sign, and the digits read as a number of the smallest units. */
  function ReadAmount(text: string, decimals: nat): (bool, int) {
    ReadPlain(WithoutCommas(text), decimals)
  }

  function ReadPlain(plain: string, decimals: nat): (bool, int) {
    var negative := plain != "" && plain[0] == '-';
    (negative, ReadFixed(if negative then plain[1..] else plain, decimals))
  }

  function ReadFixed(text: string, decimals: nat): int {
    var parts := Split(text, '.');
    Value(parts[0]) * Pow10(decimals) + if |parts| > 1 then Value(parts[1]) else 0
  }

  lemma FixedReads(n: nat, decimals: nat)
    ensures ReadFixed(ToFixed(n, decimals), decimals) == n
  {
    FixedSplits(n, decimals);
    DigitsRead(Whole(n, decimals));
    PaddedReads(n, decimals);
  }

  lemma FormattedWithoutCommas(x: Decimal, decimals: nat)
    ensures WithoutCommas(FormatIndianDigits(Some(x), decimals)) == Sign(x) + ToFixed(Rounded(x, decimals), decimals)
  {
    var n := Rounded(x, decimals);
    var whole := Digits(Whole(n, decimals));
    FormattedShape(x, decimals);
    DigitsRead(Whole(n, decimals));
    NoCommaInDigits(whole);
    FractionHasNoComma(n, decimals);
    GroupedWithoutCommas(whole);
    NothingToRemove(Sign(x));
    NothingToRemove(Fraction(n, decimals));
    WithoutCommasSplits(Sign(x) + Grouped(whole), Fraction(n, decimals));
    WithoutCommasSplits(Sign(x), Grouped(whole));
    Associates(Sign(x), whole, Fraction(n, decimals));
  }

  lemma FractionHasNoComma(n: nat, places: nat)
    ensures ',' !in Fraction(n, places)
  {
    PaddedReads(n, places);
    NoCommaInDigits(Padded(n, places));
  }

  lemma ReadsRounded(x: Decimal, decimals: nat)
    ensures ReadAmount(FormatIndianDigits(Some(x), decimals), decimals) == (x.units < 0, Rounded(x, decimals))
  {
    FormattedWithoutCommas(x, decimals);
    PlainReads(x, Rounded(x, decimals), decimals);
  }

  /**
   * Taking the commas out gives back the sign and the nearest number of the places asked for, which is
   * the amount itself when it has no more places than that.
   */
  lemma FormattedReadsBack(x: Decimal, decimals: nat)
    ensures var (negative, n) := ReadAmount(FormatIndianDigits(Some(x), decimals), decimals);
            && n >= 0 && (negative <==> x.units < 0)
            && IsNearest(x, decimals, Signed(negative, n))
            && (x.places <= decimals ==> Signed(negative, n) * Pow10(x.places) == x.units * Pow10(decimals))
  {
    ReadsRounded(x, decimals);
    RoundedIsNearest(x, decimals);
    if x.places <= decimals {
      EnoughPlacesAreExact(x, decimals);
    }
  }

  lemma PlainReads(x: Decimal, n: nat, decimals: nat)
    ensures ReadPlain(Sign(x) + ToFixed(n, decimals), decimals) == (x.units < 0, n)
  {
    FixedReads(n, decimals);
    FixedStartsWithDigit(n, decimals);
    SignReads(x, ToFixed(n, decimals));
  }

  lemma SignReads(x: Decimal, fixed: string)
    requires fixed != "" && fixed[0] != '-'
    ensures var plain := Sign(x) + fixed;
            && plain != "" && (plain[0] == '-' <==> x.units < 0)
            && fixed == if x.units < 0 then plain[1..] else plain
  {
  }

  lemma FixedStartsWithDigit(n: nat, decimals: nat)
    ensures ToFixed(n, decimals) != "" && ToFixed(n, decimals)[0] != '-'
  {
    var whole := Digits(Whole(n, decimals));
    DigitsRead(Whole(n, decimals));
    NoCommaInDigits(whole);
    assert ToFixed(n, decimals)[0] == whole[0] && whole[0] in whole;
  }

  /** Two amounts print alike exactly when they have the same sign and the same nearest number. */
  lemma SameDigitsIffSameAmount(x: Decimal, y: Decimal, decimals: nat)
    ensures FormatIndianDigits(Some(x), decimals) == FormatIndianDigits(Some(y), decimals)
            <==> (x.units < 0 <==> y.units < 0) && exists r :: IsNearest(x, decimals, r) && IsNearest(y, decimals, r)
  {
    ReadsRounded(x, decimals);
    ReadsRounded(y, decimals);
    if x.units < 0 <==> y.units < 0 {
      SameRounded(x, y, decimals);
    }
  }

  /** Text that is no number prints as nothing owed does, with two places whatever was asked for. */
  lemma NoNumberPrintsAsZero(decimals: nat)
    ensures FormatIndianDigits(None, decimals) == FormatIndianDigits(Some(Decimal(0, 0)), 2)
  {
    var x := Decimal(0, 0);
    FormattedShape(x, 2);
    assert Rounded(x, 2) == 0;
    assert Whole(0, 2) == Whole(0, 1) == Whole(0, 0) == 0;
    assert Padded(0, 2) == Padded(0, 1) + "0" && Padded(0, 1) == Padded(0, 0) + "0";
  }
}
