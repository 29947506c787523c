/**
 * The amount in words on an Indian invoice, and a reader that hears the words back in the Indian
 * scale: hundred, thousand, lakh, crore, paise.
 */
module IndianWords {
  import opened Numbers
  import opened Options
  import opened Money
  import opened NumberWords
  import opened Spacing
  import Text

  // ---- Writing ------------------------------------------------------------------------

  function With(text: string, suffix: string): string {
    text + " " + suffix
  }

  function TwoDigits(value: nat): string
    requires value < 100
  {
    if value < 20 then ONES[value]
    else if ONES[value % 10] != "" then With(TENS[value / 10], ONES[value % 10])
    else TENS[value / 10]
  }

  /** A count of hundreds beyond the table prints as `undefined`. */
  function OnesOrUndefined(n: nat): string {
    if n < |ONES| then ONES[n] else "undefined"
  }

  function HundredsPart(hundreds: nat): seq<string> {
    if hundreds > 0 then [With(OnesOrUndefined(hundreds), "Hundred")] else []
  }

  function TwoDigitsPart(rest: nat): seq<string>
    requires rest < 100
  {
    if rest > 0 then [TwoDigits(rest)] else []
  }

  function ThreeDigitParts(value: nat): seq<string> {
    HundredsPart(value / 100) + TwoDigitsPart(value % 100)
  }

  function ThreeDigits(value: nat): string {
    Text.Join(ThreeDigitParts(value), " ")
  }

  function ToWordsUnder100000(value: nat): string {
    if value < 1000 then ThreeDigits(value)
    else Text.Join([With(ThreeDigits(value / 1000), "Thousand")] + (if value % 1000 > 0 then [ThreeDigits(value % 1000)] else []), " ")
  }

  function CroresPart(whole: nat): seq<string> {
    if Crores(whole) > 0 then [With(ToWordsUnder100000(Crores(whole)), "Crore")] else []
  }

  function LakhsPart(whole: nat): seq<string> {
    if Lakhs(whole) > 0 then [With(TwoDigits(Lakhs(whole)), "Lakh")] else []
  }

  function ThousandsPart(whole: nat): seq<string> {
    if Thousands(whole) > 0 then [With(ThreeDigits(Thousands(whole)), "Thousand")] else []
  }

  function WholeParts(whole: nat): seq<string> {
    if whole == 0 then ["Zero"]
    else
      CroresPart(whole) + LakhsPart(whole) + ThousandsPart(whole)
      + if whole % 1000 > 0 then [ThreeDigits(whole % 1000)] else []
  }

  /** The amount rounded to paise, without its sign. */
  function PaiseOf(x: Decimal): nat {
    Rounded(x, 2)
  }

  function Spelled(negative: bool, paise: nat, currency: string): string {
    var whole := With(currency, Text.Join(WholeParts(paise / 100), " "));
    var words := if paise % 100 > 0 then With(With(With(whole, "and"), TwoDigits(paise % 100)), "Paise") else whole;
    With(if negative then With("Minus", words) else words, "Only")
  }

  function AmountInWords(value: Option<Decimal>, currency: string): string {
    match value
    case None => With(With(currency, "Zero"), "Only")
    case Some(x) => Normalised(Spelled(x.units < 0, PaiseOf(x), currency))
  }

  /** The three functions that push onto a list of parts, as the program runs them. */
  method WriteThreeDigits(value: nat) returns (words: string)
    ensures words == ThreeDigits(value)
  {
    var hundreds, rest := value / 100, value % 100;
    var parts := [];
    if hundreds > 0 {
      parts := parts + [With(OnesOrUndefined(hundreds), "Hundred")];
    }
    if rest > 0 {
      parts := parts + [TwoDigits(rest)];
    }
    words := Text.Join(parts, " ");
  }

  method WriteUnder100000(value: nat) returns (words: string)
    ensures words == ToWordsUnder100000(value)
  {
    if value < 1000 {
      words := WriteThreeDigits(value);
      return;
    }
    var thousand := WriteThreeDigits(value / 1000);
    var parts := [With(thousand, "Thousand")];
    if value % 1000 > 0 {
      var rest := WriteThreeDigits(value % 1000);
      parts := parts + [rest];
    }
    words := Text.Join(parts, " ");
  }

  method WriteWhole(whole: nat) returns (parts: seq<string>)
    ensures parts == WholeParts(whole)
  {
    parts := [];
    if whole == 0 {
      return ["Zero"];
    }
    var crore, lakh, thousand, remainder := Crores(whole), Lakhs(whole), Thousands(whole), whole % 1000;
    if crore > 0 {
      var text := WriteUnder100000(crore);
      parts := parts + [With(text, "Crore")];
    }
    assert parts == CroresPart(whole);
    if lakh > 0 {
      parts := parts + [With(TwoDigits(lakh), "Lakh")];
    }
    assert parts == CroresPart(whole) + LakhsPart(whole);
    if thousand > 0 {
      var text := WriteThreeDigits(thousand);
      parts := parts + [With(text, "Thousand")];
    }
    assert parts == CroresPart(whole) + LakhsPart(whole) + ThousandsPart(whole);
    if remainder > 0 {
      var text := WriteThreeDigits(remainder);
      parts := parts + [text];
    }
  }

  method WriteAmountInWords(value: Option<Decimal>, currency: string) returns (words: string)
    ensures words == AmountInWords(value, currency)
  {
    if value.None? {
      return With(With(currency, "Zero"), "Only");
    }
    var negative := value.value.units < 0;
    var whole, paise := PaiseOf(value.value) / 100, PaiseOf(value.value) % 100;
    var parts := WriteWhole(whole);
    words := With(currency, Text.Join(parts, " "));
    if paise > 0 {
      words := With(With(With(words, "and"), TwoDigits(paise)), "Paise");
    }
    if negative {
      words := With("Minus", words);
    }
    words := Normalised(With(words, "Only"));
  }

  // ---- The tokens of what is written ------------------------------------------------------

  function Says(text: string): seq<Token> {
    Tokens(Words(text))
  }

  function AllSay(parts: seq<string>): seq<Token> {
    Tokens(AllWords(parts))
  }

  lemma TokensSplit(a: seq<string>, b: seq<string>)
    ensures Tokens(a + b) == Tokens(a) + Tokens(b)
  {
  }

  lemma SaysWith(text: string, suffix: string)
    ensures Says(With(text, suffix)) == Says(text) + Says(suffix)
  {
    WordsAroundSpace(text, ' ', suffix);
    TokensSplit(Words(text), Words(suffix));
  }

  lemma WordSays(w: string, k: Token)
    requires IsWord(w) && TokenOf(w) == k
    ensures Says(w) == [k]
  {
    WordsOfWord(w);
  }

  lemma OnesSay(n: nat)
    requires 1 <= n < 20
    ensures Says(ONES[n]) == [Small(n)]
  {
    OnesRead(n);
    OnesAreWords(n);
    WordSays(ONES[n], Small(n));
  }

  lemma TensSay(n: nat)
    requires 2 <= n < 10
    ensures Says(TENS[n]) == [Small(10 * n)]
  {
    TensRead(n);
    TensAreWords(n);
    WordSays(TENS[n], Small(10 * n));
  }

  lemma OnesAreWords(n: nat)
    requires 1 <= n < 20
    ensures IsWord(ONES[n])
  {
    if n < 10 {
      OnesBelowTenAreWords(n);
    } else {
      TeensAreWords(n);
    }
  }

  lemma OnesBelowTenAreWords(n: nat)
    requires 1 <= n < 10
    ensures IsWord(ONES[n])
  {
  }

  lemma TeensAreWords(n: nat)
    requires 10 <= n < 20
    ensures IsWord(ONES[n])
  {
  }

  lemma TensAreWords(n: nat)
    requires 2 <= n < 10
    ensures IsWord(TENS[n])
  {
  }

  lemma HundredSays()
    ensures Says("Hundred") == [Hundred]
  {
    WordSays("Hundred", Hundred);
  }

  lemma ThousandSays()
    ensures Says("Thousand") == [Thousand]
  {
    WordSays("Thousand", Thousand);
  }

  lemma LakhSays()
    ensures Says("Lakh") == [Lakh]
  {
    WordSays("Lakh", Lakh);
  }

  lemma CroreSays()
    ensures Says("Crore") == [Crore]
  {
    WordSays("Crore", Crore);
  }

  lemma ZeroSays()
    ensures Says("Zero") == [Zero]
  {
    WordSays("Zero", Zero);
  }

  lemma UndefinedSays()
    ensures Says("undefined") == [Unknown]
  {
    WordSays("undefined", Unknown);
  }

  lemma AndSays()
    ensures Says("and") == [And]
  {
    WordSays("and", And);
  }

  lemma PaiseSays()
    ensures Says("Paise") == [Paise]
  {
    WordSays("Paise", Paise);
  }

  lemma OnlySays()
    ensures Says("Only") == [Only]
  {
    WordSays("Only", Only);
  }

  lemma {:induction false} AllWordsSplits(a: seq<string>, b: seq<string>)
    ensures AllWords(a + b) == AllWords(a) + AllWords(b)
  {
    if a == [] {
      assert a + b == b;
    } else {
      AllWordsSplits(a[1..], b);
      assert (a + b)[1..] == a[1..] + b;
      Text.Associates(Words(a[0]), AllWords(a[1..]), AllWords(b));
    }
  }

  lemma AllSaySplits(a: seq<string>, b: seq<string>)
    ensures AllSay(a + b) == AllSay(a) + AllSay(b)
  {
    AllWordsSplits(a, b);
    TokensSplit(AllWords(a), AllWords(b));
  }

  lemma JoinSays(parts: seq<string>)
    ensures Says(Text.Join(parts, " ")) == AllSay(parts)
  {
    WordsOfJoin(parts);
  }

  /** One optional part. */
  lemma PartSays(present: bool, text: string, ks: seq<Token>)
    requires present ==> Says(text) == ks
    ensures AllSay(if present then [text] else []) == if present then ks else []
  {
    if present {
      OnePartSays(text);
    }
  }

  lemma OnePartSays(text: string)
    ensures AllSay([text]) == Says(text)
  {
    assert [text][1..] == [] && AllWords([]) == [];
    assert AllWords([text]) == Words(text) + [] == Words(text);
  }

  lemma LabelledSays(text: string, ks: seq<Token>, suffix: string, k: Token)
    requires Says(text) == ks && Says(suffix) == [k]
    ensures Says(With(text, suffix)) == ks + [k]
  {
    SaysWith(text, suffix);
  }

  lemma TwoDigitsOfTens(tens: nat, ones: nat)
    requires 2 <= tens < 10 && ones < 10
    ensures TwoDigits(10 * tens + ones) == if ones == 0 then TENS[tens] else With(TENS[tens], ONES[ones])
  {
    assert (10 * tens + ones) / 10 == tens && (10 * tens + ones) % 10 == ones;
  }

  lemma TeensSay(value: nat)
    requires value < 20
    ensures Says(ONES[value]) == TwoDigitTokens(value)
  {
    if value > 0 {
      OnesSay(value);
    }
  }

  lemma TensAndOnesSay(tens: nat, ones: nat)
    requires 2 <= tens < 10 && 1 <= ones < 10
    ensures Says(With(TENS[tens], ONES[ones])) == [Small(10 * tens), Small(ones)]
  {
    TensSay(tens);
    OnesSay(ones);
    LabelledSays(TENS[tens], [Small(10 * tens)], ONES[ones], Small(ones));
  }

  lemma TensTokens(tens: nat, ones: nat)
    requires 2 <= tens < 10 && ones < 10
    ensures TwoDigitTokens(10 * tens + ones) == if ones == 0 then [Small(10 * tens)] else [Small(10 * tens), Small(ones)]
  {
    assert (10 * tens + ones) / 10 == tens && (10 * tens + ones) % 10 == ones;
  }

  lemma TextSaysTens(tens: nat, ones: nat, text: string)
    requires 2 <= tens < 10 && ones < 10 && text == if ones == 0 then TENS[tens] else With(TENS[tens], ONES[ones])
    ensures Says(text) == TwoDigitTokens(10 * tens + ones)
  {
    TensTokens(tens, ones);
    if ones == 0 {
      TensSay(tens);
    } else {
      TensAndOnesSay(tens, ones);
    }
  }

  lemma TwoDigitsSay(value: nat)
    requires value < 100
    ensures Says(TwoDigits(value)) == TwoDigitTokens(value)
  {
    if value < 20 {
      TeensSay(value);
    } else {
      var tens, ones := value / 10, value % 10;
      TwoDigitsOfTens(tens, ones);
      TextSaysTens(tens, ones, TwoDigits(10 * tens + ones));
    }
  }

  lemma NameSays(hundreds: nat)
    requires hundreds > 0
    ensures Says(OnesOrUndefined(hundreds)) == [if hundreds < 20 then Small(hundreds) else Unknown]
  {
    if hundreds < 20 {
      OnesSay(hundreds);
    } else {
      UndefinedSays();
    }
  }

  lemma HundredsSay(hundreds: nat)
    ensures AllSay(HundredsPart(hundreds)) == HundredsTokens(hundreds)
  {
    if hundreds > 0 {
      NameSays(hundreds);
      HundredSays();
      LabelledSays(OnesOrUndefined(hundreds), [if hundreds < 20 then Small(hundreds) else Unknown], "Hundred", Hundred);
    }
    PartSays(hundreds > 0, With(OnesOrUndefined(hundreds), "Hundred"), HundredsTokens(hundreds));
  }

  lemma JoinOfTwoSays(a: seq<string>, ks: seq<Token>, b: seq<string>, more: seq<Token>)
    requires AllSay(a) == ks && AllSay(b) == more
    ensures Says(Text.Join(a + b, " ")) == ks + more
  {
    AllSaySplits(a, b);
    JoinSays(a + b);
  }

  lemma ThreeDigitsSay(value: nat)
    ensures Says(ThreeDigits(value)) == ThreeDigitTokens(value)
  {
    HundredsSay(value / 100);
    TwoDigitsSay(value % 100);
    PartSays(value % 100 > 0, TwoDigits(value % 100), TwoDigitTokens(value % 100));
    JoinOfTwoSays(HundredsPart(value / 100), HundredsTokens(value / 100), TwoDigitsPart(value % 100), TwoDigitTokens(value % 100));
  }

  lemma NothingSays(value: nat)
    requires value == 0
    ensures ThreeDigitTokens(value) == []
  {
  }

  lemma LastSays(remainder: nat)
    ensures AllSay(if remainder > 0 then [ThreeDigits(remainder)] else []) == ThreeDigitTokens(remainder)
  {
    if remainder > 0 {
      ThreeDigitsSay(remainder);
    } else {
      NothingSays(remainder);
    }
    PartSays(remainder > 0, ThreeDigits(remainder), ThreeDigitTokens(remainder));
  }

  lemma ThousandsSay(thousands: string, ks: seq<Token>, suffix: string, rest: seq<string>, more: seq<Token>)
    requires Says(thousands) == ks && Says(suffix) == [Thousand] && AllSay(rest) == more
    ensures Says(Text.Join([With(thousands, suffix)] + rest, " ")) == ks + [Thousand] + more
  {
    LabelledSays(thousands, ks, suffix, Thousand);
    OnePartSays(With(thousands, suffix));
    JoinOfTwoSays([With(thousands, suffix)], ks + [Thousand], rest, more);
  }

  lemma Under100000Says(value: nat)
    ensures Says(ToWordsUnder100000(value)) == CroreTokens(value)
  {
    if value < 1000 {
      ThreeDigitsSay(value);
    } else {
      ThreeDigitsSay(value / 1000);
      LastSays(value % 1000);
      ThousandSays();
      ThousandsSay(ThreeDigits(value / 1000), ThreeDigitTokens(value / 1000), "Thousand",
                   if value % 1000 > 0 then [ThreeDigits(value % 1000)] else [], ThreeDigitTokens(value % 1000));
    }
  }

  lemma GroupSays(count: nat, text: string, ks: seq<Token>, scale: string, k: Token)
    requires Says(scale) == [k] && Says(text) == ks
    ensures AllSay(if count > 0 then [With(text, scale)] else []) == Group(count, ks, k)
  {
    LabelledSays(text, ks, scale, k);
    PartSays(count > 0, With(text, scale), ks + [k]);
  }

  lemma FourPartsSay(a: seq<string>, w: seq<Token>, b: seq<string>, x: seq<Token>, c: seq<string>, y: seq<Token>,
                     d: seq<string>, z: seq<Token>)
    requires AllSay(a) == w && AllSay(b) == x && AllSay(c) == y && AllSay(d) == z
    ensures AllSay(a + b + c + d) == w + x + y + z
  {
    AllSaySplits(a, b);
    AllSaySplits(a + b, c);
    AllSaySplits(a + b + c, d);
  }

  /** What is written for the whole part is what is heard as it. */
  lemma WholeSays(whole: nat)
    ensures AllSay(WholeParts(whole)) == WholeTokens(whole)
  {
    if whole == 0 {
      ZeroSays();
      OnePartSays("Zero");
    } else {
      CroresSay(whole);
      LakhsSay(whole);
      ThousandsPartSays(whole);
      LastSays(whole % 1000);
      FourPartsSay(CroresPart(whole), Group(Crores(whole), CroreTokens(Crores(whole)), Crore),
                   LakhsPart(whole), Group(Lakhs(whole), TwoDigitTokens(Lakhs(whole)), Lakh),
                   ThousandsPart(whole), Group(Thousands(whole), ThreeDigitTokens(Thousands(whole)), Thousand),
                   if whole % 1000 > 0 then [ThreeDigits(whole % 1000)] else [], ThreeDigitTokens(whole % 1000));
    }
  }

  lemma CroresSay(whole: nat)
    ensures AllSay(CroresPart(whole)) == Group(Crores(whole), CroreTokens(Crores(whole)), Crore)
  {
    CroreSays();
    Under100000Says(Crores(whole));
    GroupSays(Crores(whole), ToWordsUnder100000(Crores(whole)), CroreTokens(Crores(whole)), "Crore", Crore);
  }

  lemma LakhsSay(whole: nat)
    ensures AllSay(LakhsPart(whole)) == Group(Lakhs(whole), TwoDigitTokens(Lakhs(whole)), Lakh)
  {
    LakhSays();
    TwoDigitsSay(Lakhs(whole));
    GroupSays(Lakhs(whole), TwoDigits(Lakhs(whole)), TwoDigitTokens(Lakhs(whole)), "Lakh", Lakh);
  }

  lemma ThousandsPartSays(whole: nat)
    ensures AllSay(ThousandsPart(whole)) == Group(Thousands(whole), ThreeDigitTokens(Thousands(whole)), Thousand)
  {
    ThousandSays();
    ThreeDigitsSay(Thousands(whole));
    GroupSays(Thousands(whole), ThreeDigits(Thousands(whole)), ThreeDigitTokens(Thousands(whole)), "Thousand", Thousand);
  }

  // ---- Reading the whole line back --------------------------------------------------------

  function BodyTokens(paise: nat): seq<Token> {
    WholeTokens(paise / 100) + PaiseTokens(paise % 100)
  }

  /** What follows the rupees: "and", the paise, "Paise", "Only"; or "Only" at once. */
  function PaiseTokens(paise: nat): seq<Token>
    requires paise < 100
  {
    (if paise > 0 then [And] + TwoDigitTokens(paise) + [Paise] else []) + [Only]
  }

  /** How far a line has been heard: in the rupees, in the paise, after "Paise", or done. */
  datatype Hearing = Rupees(t: Tally) | PaiseAfter(rupees: nat, t: Tally) | Counted(rupees: nat, paise: nat) | Done(amount: nat)

  function Sum(t: Tally): nat {
    t.total + t.block + t.current
  }

  function HearNext(h: Hearing, k: Token): Option<Hearing> {
    match h
    case Rupees(t) =>
      if k.And? then Some(PaiseAfter(Sum(t), Tally(0, 0, 0)))
      else if k.Only? then Some(Done(100 * Sum(t)))
      else (match HearToken(t, k) case Some(next) => Some(Rupees(next)) case None => None)
    case PaiseAfter(rupees, t) =>
      if k.Paise? then Some(Counted(rupees, Sum(t)))
      else (match HearToken(t, k) case Some(next) => Some(PaiseAfter(rupees, next)) case None => None)
    case Counted(rupees, paise) => if k.Only? then Some(Done(100 * rupees + paise)) else None
    case Done(_) => None
  }

  function HearLine(h: Hearing, ks: seq<Token>): Option<Hearing>
    decreases |ks|
  {
    if ks == [] then Some(h)
    else match HearNext(h, ks[0])
      case None => None
      case Some(next) => HearLine(next, ks[1..])
  }

  /** Rupees, then perhaps "and", paise and "Paise", then "Only": the amount in paise. */
  function ReadBody(ks: seq<Token>): Option<nat> {
    match HearLine(Rupees(Tally(0, 0, 0)), ks)
    case Some(Done(amount)) => Some(amount)
    case _ => None
  }

  /** Whether the amount is said to be negative, and the amount in paise. */
  function Read(text: string, currency: string): Option<(bool, nat)> {
    var ws, unit := Words(text), Words(currency);
    if unit <= ws && (|ws| == |unit| || ws[|unit|] != "Minus") then
      match ReadBody(Tokens(ws[|unit|..]))
      case Some(n) => Some((false, n))
      case None => None
    else if ws != [] && ws[0] == "Minus" && unit <= ws[1..] then
      match ReadBody(Tokens(ws[1..][|unit|..]))
      case Some(n) => Some((true, n))
      case None => None
    else None
  }

  lemma {:induction false} LineThen(h: Hearing, a: seq<Token>, mid: Option<Hearing>, b: seq<Token>, end: Option<Hearing>)
    requires HearLine(h, a) == mid && end == (match mid case Some(m) => HearLine(m, b) case None => None)
    ensures HearLine(h, a + b) == end
    decreases |a|
  {
    if a == [] {
      assert a + b == b;
    } else {
      assert (a + b)[1..] == a[1..] + b;
      if HearNext(h, a[0]).Some? {
        LineThen(HearNext(h, a[0]).value, a[1..], mid, b, end);
      }
    }
  }

  lemma LineOne(h: Hearing, k: Token)
    ensures HearLine(h, [k]) == HearNext(h, k)
  {
    assert [k][1..] == [];
  }

  /** Number words are heard in the rupees as they are on their own. */
  lemma {:induction false} RupeesHeard(t: Tally, ks: seq<Token>)
    requires AllSpoken(ks)
    ensures HearLine(Rupees(t), ks) == match Hear(t, ks) case Some(end) => Some(Rupees(end)) case None => None
    decreases |ks|
  {
    if ks != [] {
      assert Spoken(ks[0]);
      if HearToken(t, ks[0]).Some? {
        assert forall i | 0 <= i < |ks[1..]| :: ks[1..][i] == ks[i + 1];
        RupeesHeard(HearToken(t, ks[0]).value, ks[1..]);
      }
    }
  }

  lemma {:induction false} PaiseHeard(rupees: nat, t: Tally, ks: seq<Token>)
    requires Hear(t, ks).Some?
    ensures HearLine(PaiseAfter(rupees, t), ks) == Some(PaiseAfter(rupees, Hear(t, ks).value))
    decreases |ks|
  {
    if ks != [] {
      PaiseHeard(rupees, HearToken(t, ks[0]).value, ks[1..]);
    }
  }

  /** Fewer than twenty lakh crore: every count has its words. */
  predicate IsNamed(whole: nat) {
    whole < 20_000_000_000_000
  }

  lemma WholeHeardOrNot(whole: nat)
    ensures Heard(WholeTokens(whole)) == if IsNamed(whole) then Some(whole) else None
  {
    if IsNamed(whole) {
      WholeIsHeard(whole);
    } else {
      HugeWholeIsNotHeard(whole);
    }
  }

  lemma TailHeard(t: Tally, paise: nat)
    requires paise < 100
    ensures HearLine(Rupees(t), PaiseTokens(paise)) == Some(Done(100 * Sum(t) + paise))
  {
    var start, two := Tally(0, 0, 0), TwoDigitTokens(paise);
    if paise > 0 {
      var after, said := PaiseAfter(Sum(t), start), PaiseAfter(Sum(t), start.(current := paise));
      TwoDigitsHeard(start, paise);
      PaiseHeard(Sum(t), start, two);
      LineOne(Rupees(t), And);
      LineThen(Rupees(t), [And], Some(after), two, Some(said));
      LineOne(said, Paise);
      LineThen(Rupees(t), [And] + two, Some(said), [Paise], Some(Counted(Sum(t), paise)));
      LineOne(Counted(Sum(t), paise), Only);
      LineThen(Rupees(t), [And] + two + [Paise], Some(Counted(Sum(t), paise)), [Only], Some(Done(100 * Sum(t) + paise)));
    } else {
      LineOne(Rupees(t), Only);
      assert [] + [Only] == [Only];
    }
  }

  lemma LineHeard(whole: seq<Token>, heard: Option<Tally>, tail: seq<Token>, paise: nat)
    requires AllSpoken(whole) && Hear(Tally(0, 0, 0), whole) == heard
    requires heard.Some? ==> HearLine(Rupees(heard.value), tail) == Some(Done(100 * Sum(heard.value) + paise))
    ensures ReadBody(whole + tail) == match heard case Some(t) => Some(100 * Sum(t) + paise) case None => None
  {
    var start := Rupees(Tally(0, 0, 0));
    RupeesHeard(Tally(0, 0, 0), whole);
    LineThen(start, whole, match heard case Some(t) => Some(Rupees(t)) case None => None, tail,
             match heard case Some(t) => Some(Done(100 * Sum(t) + paise)) case None => None);
  }

  lemma RupeesAndPaiseRead(rupees: nat, paise: nat)
    requires paise < 100
    ensures ReadBody(WholeTokens(rupees) + PaiseTokens(paise)) == if IsNamed(rupees) then Some(100 * rupees + paise) else None
  {
    var heard := Hear(Tally(0, 0, 0), WholeTokens(rupees));
    WholeIsSpoken(rupees);
    WholeHeardOrNot(rupees);
    if heard.Some? {
      TailHeard(heard.value, paise);
    }
    LineHeard(WholeTokens(rupees), heard, PaiseTokens(paise), paise);
  }

  lemma BodyReads(paise: nat)
    ensures ReadBody(BodyTokens(paise)) == if IsNamed(paise / 100) then Some(paise) else None
  {
    RupeesAndPaiseRead(paise / 100, paise % 100);
  }

  /** What follows the currency in the words written. */
  function BodyWords(paise: nat): seq<string> {
    Words(Text.Join(WholeParts(paise / 100), " ")) + PaiseWords(paise % 100)
  }

  function PaiseWords(paise: nat): seq<string>
    requires paise < 100
  {
    (if paise > 0 then Words("and") + Words(TwoDigits(paise)) + Words("Paise") else []) + Words("Only")
  }

  lemma PaiseWordsSay(paise: nat)
    requires paise < 100
    ensures Tokens(PaiseWords(paise)) == PaiseTokens(paise)
  {
    TwoDigitsSay(paise);
    AndSays();
    PaiseSays();
    OnlySays();
    PaiseTokensOf(paise > 0, Words("and"), Words(TwoDigits(paise)), Words("Paise"), Words("Only"));
  }

  lemma BodySays(paise: nat)
    ensures Tokens(BodyWords(paise)) == BodyTokens(paise)
  {
    JoinSays(WholeParts(paise / 100));
    WholeSays(paise / 100);
    PaiseWordsSay(paise % 100);
    TokensSplit(Words(Text.Join(WholeParts(paise / 100), " ")), PaiseWords(paise % 100));
  }

  lemma PaiseTokensOf(present: bool, conj: seq<string>, paise: seq<string>, unit: seq<string>, end: seq<string>)
    ensures Tokens((if present then conj + paise + unit else []) + end)
            == (if present then Tokens(conj) + Tokens(paise) + Tokens(unit) else []) + Tokens(end)
  {
  }

  lemma WordsOfWith(text: string, suffix: string)
    ensures Words(With(text, suffix)) == Words(text) + Words(suffix)
  {
    WordsAroundSpace(text, ' ', suffix);
  }

  /** The words written: the sign, the currency, the amount. */
  lemma SpelledWords(negative: bool, paise: nat, currency: string)
    ensures Words(Spelled(negative, paise, currency))
            == (if negative then Words("Minus") else []) + Words(currency) + BodyWords(paise)
  {
    var join := Text.Join(WholeParts(paise / 100), " ");
    SpelledPieces(negative, currency, join, paise % 100 > 0, "and", TwoDigits(paise % 100), "Paise", "Minus", "Only");
  }

  lemma FiveAssociate(a: seq<string>, b: seq<string>, c: seq<string>, d: seq<string>, e: seq<string>)
    ensures a + b + c + d + e == a + (b + (c + d + e))
  {
    Text.Associates(c, d, e);
    Text.Associates(a + b, c, d);
    Text.Associates(a + b, c + d, e);
    Text.Associates(a, b, c + d + e);
  }

  /** The words of the currency, the rupees and the paise. */
  lemma AmountPieces(currency: string, join: string, present: bool, conj: string, two: string, unit: string)
    ensures var whole := With(currency, join);
            Words(if present then With(With(With(whole, conj), two), unit) else whole)
            == Words(currency) + (Words(join) + if present then Words(conj) + Words(two) + Words(unit) else [])
  {
    var whole := With(currency, join);
    WordsOfWith(currency, join);
    if present {
      WordsOfWith(whole, conj);
      WordsOfWith(With(whole, conj), two);
      WordsOfWith(With(With(whole, conj), two), unit);
      FiveAssociate(Words(currency), Words(join), Words(conj), Words(two), Words(unit));
    } else {
      assert Words(join) + [] == Words(join);
    }
  }

  lemma FramePieces(negative: bool, minus: string, words: string, end: string, currency: seq<string>, amount: seq<string>)
    requires Words(words) == currency + amount
    ensures Words(With(if negative then With(minus, words) else words, end))
            == (if negative then Words(minus) else []) + currency + (amount + Words(end))
  {
    WordsOfWith(if negative then With(minus, words) else words, end);
    if negative {
      WordsOfWith(minus, words);
      Text.Associates(Words(minus), currency, amount);
      Text.Associates(Words(minus) + currency, amount, Words(end));
    } else {
      Text.Associates(currency, amount, Words(end));
      assert [] + currency == currency;
    }
  }

  lemma SpelledPieces(negative: bool, currency: string, join: string, present: bool, conj: string, two: string,
                      unit: string, minus: string, end: string)
    ensures var whole := With(currency, join);
            var words := if present then With(With(With(whole, conj), two), unit) else whole;
            Words(With(if negative then With(minus, words) else words, end))
            == (if negative then Words(minus) else []) + Words(currency)
               + (Words(join) + ((if present then Words(conj) + Words(two) + Words(unit) else []) + Words(end)))
  {
    Text.Associates(Words(join), if present then Words(conj) + Words(two) + Words(unit) else [], Words(end));
    AmountPieces(currency, join, present, conj, two, unit);
    var whole := With(currency, join);
    var words := if present then With(With(With(whole, conj), two), unit) else whole;
    FramePieces(negative, minus, words, end, Words(currency),
                Words(join) + if present then Words(conj) + Words(two) + Words(unit) else []);
  }

  /** A line that starts with the currency is not also a line that starts with "Minus" and the currency. */
  lemma {:induction false} MinusComesFirst(unit: seq<string>, body: seq<string>, i: nat)
    requires unit <= ["Minus"] + unit + body && i < |unit|
    ensures unit[i] == "Minus"
  {
    var ws := ["Minus"] + unit + body;
    assert unit[i] == ws[i];
    if i > 0 {
      MinusComesFirst(unit, body, i - 1);
      assert ws[i] == unit[i - 1];
    }
  }

  lemma StartsSpoken(ws: seq<string>, ks: seq<Token>)
    requires Tokens(ws) == ks && ks != [] && Spoken(ks[0])
    ensures ws != [] && ws[0] != "Minus"
  {
    assert TokenOf(ws[0]) == ks[0];
  }

  lemma BodyStarts(paise: nat)
    ensures BodyTokens(paise) != [] && Spoken(BodyTokens(paise)[0])
  {
    WholeIsSpoken(paise / 100);
    assert BodyTokens(paise)[0] == WholeTokens(paise / 100)[0];
  }

  lemma PositiveReads(text: string, currency: string, body: seq<string>)
    requires Words(text) == Words(currency) + body && body != [] && body[0] != "Minus"
    ensures Read(text, currency) == match ReadBody(Tokens(body)) case Some(n) => Some((false, n)) case None => None
  {
    var ws, unit := Words(text), Words(currency);
    assert ws[|unit|..] == body && ws[|unit|] == body[0];
  }

  lemma NotReadAsPositive(unit: seq<string>, body: seq<string>)
    ensures var ws := ["Minus"] + unit + body;
            unit <= ws && |ws| > |unit| ==> ws[|unit|] == "Minus"
  {
    var ws := ["Minus"] + unit + body;
    if unit <= ws && unit != [] {
      MinusComesFirst(unit, body, |unit| - 1);
      assert ws[|unit|] == unit[|unit| - 1];
    }
  }

  lemma AfterMinus(unit: seq<string>, body: seq<string>)
    ensures var ws := ["Minus"] + unit + body;
            ws[1..] == unit + body && unit <= ws[1..] && ws[1..][|unit|..] == body
  {
    assert (["Minus"] + unit + body)[1..] == unit + body;
  }

  lemma NegativeReads(text: string, currency: string, body: seq<string>)
    requires Words(text) == ["Minus"] + Words(currency) + body && body != [] && body[0] != "Minus"
    ensures Read(text, currency) == match ReadBody(Tokens(body)) case Some(n) => Some((true, n)) case None => None
  {
    var unit := Words(currency);
    NotReadAsPositive(unit, body);
    AfterMinus(unit, body);
  }

  lemma MinusSays()
    ensures Words("Minus") == ["Minus"]
  {
    WordsOfWord("Minus");
  }

  lemma RoundedReadsBack(x: Decimal, currency: string)
    ensures Read(AmountInWords(Some(x), currency), currency)
            == if IsNamed(PaiseOf(x) / 100) then Some((x.units < 0, PaiseOf(x))) else None
  {
    var paise := PaiseOf(x);
    var text := AmountInWords(Some(x), currency);
    NormalisedKeepsWords(Spelled(x.units < 0, paise, currency));
    SpelledWords(x.units < 0, paise, currency);
    BodyStarts(paise);
    BodySays(paise);
    StartsSpoken(BodyWords(paise), BodyTokens(paise));
    BodyReads(paise);
    if x.units < 0 {
      MinusSays();
      NegativeReads(text, currency, BodyWords(paise));
    } else {
      assert [] + Words(currency) == Words(currency);
      PositiveReads(text, currency, BodyWords(paise));
    }
  }

  /**
   * Reading the words gives back the sign and the nearest number of paise exactly when that is less than
   * twenty lakh crore rupees; from there on the words name no amount. An amount of whole paise comes back
   * as it is.
   */
  lemma AmountReadsBack(x: Decimal, currency: string)
    ensures match Read(AmountInWords(Some(x), currency), currency)
            case Some((negative, paise)) =>
              && (negative <==> x.units < 0) && 0 <= paise < 2_000_000_000_000_000
              && IsNearest(x, 2, Signed(negative, paise))
              && (x.places <= 2 ==> Signed(negative, paise) * Pow10(x.places) == x.units * 100)
            case None =>
              exists r :: Abs(r) >= 2_000_000_000_000_000 && IsNearest(x, 2, r)
  {
    RoundedReadsBack(x, currency);
    PaiseAreNearest(x);
  }

  lemma PaiseAreNearest(x: Decimal)
    ensures IsNearest(x, 2, Signed(x.units < 0, PaiseOf(x)))
    ensures x.places <= 2 ==> Signed(x.units < 0, PaiseOf(x)) * Pow10(x.places) == x.units * 100
  {
    RoundedIsNearest(x, 2);
    if x.places <= 2 {
      EnoughPlacesAreExact(x, 2);
      PaiseInARupee();
      TimesHundred(x.units, Pow10(2));
    }
  }

  lemma TimesHundred(u: int, p: nat)
    requires p == 100
    ensures u * p == u * 100
  {
  }

  lemma PaiseInARupee()
    ensures Pow10(2) == 100
  {
    assert Pow10(1) == 10;
  }

  /** Below that bound, two amounts print the same words exactly when sign and nearest number of paise agree. */
  lemma SameWordsIffSameAmount(x: Decimal, y: Decimal, currency: string)
    requires forall r :: IsNearest(x, 2, r) ==> Abs(r) < 2_000_000_000_000_000
    requires forall r :: IsNearest(y, 2, r) ==> Abs(r) < 2_000_000_000_000_000
    ensures AmountInWords(Some(x), currency) == AmountInWords(Some(y), currency)
            <==> (x.units < 0 <==> y.units < 0) && exists r :: IsNearest(x, 2, r) && IsNearest(y, 2, r)
  {
    RoundedIsNearest(x, 2);
    RoundedIsNearest(y, 2);
    RoundedReadsBack(x, currency);
    RoundedReadsBack(y, currency);
    if x.units < 0 <==> y.units < 0 {
      SameRounded(x, y, 2);
    }
  }

  /** Text that is no number is written as nothing owed. */
  lemma NoNumberReadsAsZero(currency: string)
    ensures Read(AmountInWords(None, currency), currency) == Some((false, 0))
  {
    var zero := Decimal(0, 0);
    RoundedReadsBack(zero, currency);
    assert PaiseOf(zero) == 0;
    NormalisedKeepsWords(Spelled(false, 0, currency));
    assert Spelled(false, 0, currency) == AmountInWords(None, currency);
  }

  lemma UnnamedHundreds(m: nat, n: nat)
    requires m >= 2000 && n >= 2000 && m % 100 == n % 100
    ensures ThreeDigits(m) == ThreeDigits(n)
  {
    assert HundredsPart(m / 100) == HundredsPart(n / 100);
  }

  lemma UnnamedCrores(m: nat, n: nat)
    requires m >= 2_000_000 && n >= 2_000_000 && m / 1000 % 100 == n / 1000 % 100 && m % 1000 == n % 1000
    ensures ToWordsUnder100000(m) == ToWordsUnder100000(n)
  {
    UnnamedHundreds(m / 1000, n / 1000);
  }

  lemma HugeWholesPrintAlike(m: nat, n: nat)
    requires Crores(m) >= 2_000_000 && Crores(n) >= 2_000_000 && Lakhs(m) == Lakhs(n)
    requires Thousands(m) == Thousands(n) && m % 1000 == n % 1000
    requires Crores(m) / 1000 % 100 == Crores(n) / 1000 % 100 && Crores(m) % 1000 == Crores(n) % 1000
    ensures WholeParts(m) == WholeParts(n)
  {
    UnnamedCrores(Crores(m), Crores(n));
  }

  /** Beyond the bound different amounts do print alike: twenty and twenty-one lakh crore. */
  lemma HugeAmountsPrintAlike(currency: string)
    ensures var a, b := Decimal(20_000_000_000_000, 0), Decimal(21_000_000_000_000, 0);
            PaiseOf(a) != PaiseOf(b) && AmountInWords(Some(a), currency) == AmountInWords(Some(b), currency)
  {
    var a, b := Decimal(20_000_000_000_000, 0), Decimal(21_000_000_000_000, 0);
    PaiseInARupee();
    assert PaiseOf(a) == 2_000_000_000_000_000 && PaiseOf(b) == 2_100_000_000_000_000;
    HugeWholesPrintAlike(20_000_000_000_000, 21_000_000_000_000);
  }
}
