/** The number words of an Indian invoice, and how they are read. */
module NumberWords {
  import opened Options

  const ONES := [
    "", "One", "Two", "Three", "Four", "Five", "Six", "Seven", "Eight", "Nine", "Ten", "Eleven", "Twelve",
    "Thirteen", "Fourteen", "Fifteen", "Sixteen", "Seventeen", "Eighteen", "Nineteen"]

  const TENS := ["", "", "Twenty", "Thirty", "Forty", "Fifty", "Sixty", "Seventy", "Eighty", "Ninety"]

  /** What a reader makes of a word. */
  datatype Token = Small(value: nat) | Hundred | Thousand | Lakh | Crore | Zero | And | Paise | Only | Minus | Unknown

  /** What a word adds to the number it is part of. */
  function SmallValue(w: string): Option<nat> {
    match w
    case "One" => Some(1)
    case "Two" => Some(2)
    case "Three" => Some(3)
    case "Four" => Some(4)
    case "Five" => Some(5)
    case "Six" => Some(6)
    case "Seven" => Some(7)
    case "Eight" => Some(8)
    case "Nine" => Some(9)
    case "Ten" => Some(10)
    case "Eleven" => Some(11)
    case "Twelve" => Some(12)
    case "Thirteen" => Some(13)
    case "Fourteen" => Some(14)
    case "Fifteen" => Some(15)
    case "Sixteen" => Some(16)
    case "Seventeen" => Some(17)
    case "Eighteen" => Some(18)
    case "Nineteen" => Some(19)
    case "Twenty" => Some(20)
    case "Thirty" => Some(30)
    case "Forty" => Some(40)
    case "Fifty" => Some(50)
    case "Sixty" => Some(60)
    case "Seventy" => Some(70)
    case "Eighty" => Some(80)
    case "Ninety" => Some(90)
    case _ => None
  }

  function TokenOf(w: string): Token {
    match w
    case "Hundred" => Hundred
    case "Thousand" => Thousand
    case "Lakh" => Lakh
    case "Crore" => Crore
    case "Zero" => Zero
    case "and" => And
    case "Paise" => Paise
    case "Only" => Only
    case "Minus" => Minus
    case _ =>
      match SmallValue(w)
      case Some(v) => Small(v)
      case None => Unknown
  }

  lemma OnesRead(n: nat)
    requires 1 <= n < 20
    ensures TokenOf(ONES[n]) == Small(n)
  {
  }

  lemma TensRead(n: nat)
    requires 2 <= n < 10
    ensures TokenOf(TENS[n]) == Small(10 * n)
  {
  }

  function Tokens(ws: seq<string>): seq<Token> {
    seq(|ws|, i requires 0 <= i < |ws| => TokenOf(ws[i]))
  }

  // ---- Hearing a number in the Indian scale ------------------------------------------------

  /** The number so far: crores done, thousands of the current group, and what is being said. */
  datatype Tally = Tally(total: nat, block: nat, current: nat)

  function HearToken(t: Tally, k: Token): Option<Tally> {
    match k
    case Small(v) => Some(t.(current := t.current + v))
    case Hundred => Some(t.(current := 100 * t.current))
    case Thousand => Some(Tally(t.total, t.block + 1000 * t.current, 0))
    case Lakh => Some(Tally(t.total + 100_000 * t.current, t.block, 0))
    case Crore => Some(Tally(t.total + 10_000_000 * (t.block + t.current), 0, 0))
    case Zero => Some(t)
    case _ => None
  }

  function Hear(t: Tally, ks: seq<Token>): Option<Tally>
    decreases |ks|
  {
    if ks == [] then Some(t)
    else match HearToken(t, ks[0])
      case None => None
      case Some(next) => Hear(next, ks[1..])
  }

  /** The number a list of words names. */
  function Heard(ks: seq<Token>): Option<nat> {
    match Hear(Tally(0, 0, 0), ks)
    case None => None
    case Some(t) => Some(t.total + t.block + t.current)
  }

  lemma HearOne(t: Tally, k: Token)
    ensures Hear(t, [k]) == HearToken(t, k)
  {
    assert [k][1..] == [];
  }

  lemma {:induction false} Then(t: Tally, a: seq<Token>, mid: Tally, b: seq<Token>, end: Option<Tally>)
    requires Hear(t, a) == Some(mid) && Hear(mid, b) == end
    ensures Hear(t, a + b) == end
    decreases |a|
  {
    if a == [] {
      assert a + b == b;
    } else {
      assert (a + b)[1..] == a[1..] + b;
      Then(HearToken(t, a[0]).value, a[1..], mid, b, end);
    }
  }

  lemma {:induction false} UnknownIsNotHeard(t: Tally, ks: seq<Token>)
    requires Unknown in ks
    ensures Hear(t, ks) == None
    decreases |ks|
  {
    if ks[0] != Unknown && HearToken(t, ks[0]).Some? {
      UnknownIsNotHeard(HearToken(t, ks[0]).value, ks[1..]);
    }
  }

  // ---- The words of a number, as tokens -------------------------------------------------------

  function TwoDigitTokens(value: nat): seq<Token> {
    if value == 0 then []
    else if value < 20 || value % 10 == 0 then [Small(value)]
    else [Small(value / 10 * 10), Small(value % 10)]
  }

  function HundredsTokens(hundreds: nat): seq<Token> {
    if hundreds > 0 then [if hundreds < 20 then Small(hundreds) else Unknown, Hundred] else []
  }

  function ThreeDigitTokens(value: nat): seq<Token> {
    HundredsTokens(value / 100) + TwoDigitTokens(value % 100)
  }

  function CroreTokens(value: nat): seq<Token> {
    if value < 1000 then ThreeDigitTokens(value)
    else ThreeDigitTokens(value / 1000) + [Thousand] + ThreeDigitTokens(value % 1000)
  }

  /** A count and its scale word, or nothing for a count of zero. */
  function Group(count: nat, ks: seq<Token>, scale: Token): seq<Token> {
    if count > 0 then ks + [scale] else []
  }

  function Crores(whole: nat): nat {
    whole / 10_000_000
  }

  function Lakhs(whole: nat): (n: nat)
    ensures n < 100
  {
    whole % 10_000_000 / 100_000
  }

  function Thousands(whole: nat): (n: nat)
    ensures n < 100
  {
    whole % 100_000 / 1000
  }

  function WholeTokens(whole: nat): seq<Token> {
    if whole == 0 then [Zero]
    else
      Group(Crores(whole), CroreTokens(Crores(whole)), Crore)
      + Group(Lakhs(whole), TwoDigitTokens(Lakhs(whole)), Lakh)
      + Group(Thousands(whole), ThreeDigitTokens(Thousands(whole)), Thousand)
      + ThreeDigitTokens(whole % 1000)
  }

  lemma TwoDigitsHeard(t: Tally, value: nat)
    requires value < 100
    ensures Hear(t, TwoDigitTokens(value)) == Some(t.(current := t.current + value))
  {
    if value >= 20 && value % 10 > 0 {
      var a, b := Small(value / 10 * 10), Small(value % 10);
      HearOne(t, a);
      HearOne(HearToken(t, a).value, b);
      Then(t, [a], HearToken(t, a).value, [b], Some(t.(current := t.current + value)));
      assert [a] + [b] == [a, b];
    } else if value > 0 {
      HearOne(t, Small(value));
    }
  }

  lemma HundredsHeard(t: Tally, hundreds: nat)
    requires hundreds < 20 && t.current == 0
    ensures Hear(t, HundredsTokens(hundreds)) == Some(t.(current := 100 * hundreds))
  {
    if hundreds > 0 {
      HearOne(t, Small(hundreds));
      HearOne(t.(current := hundreds), Hundred);
      Then(t, [Small(hundreds)], t.(current := hundreds), [Hundred], Some(t.(current := 100 * hundreds)));
      assert [Small(hundreds)] + [Hundred] == HundredsTokens(hundreds);
    }
  }

  lemma ThreeDigitsHeard(t: Tally, value: nat)
    requires value < 2000 && t.current == 0
    ensures Hear(t, ThreeDigitTokens(value)) == Some(t.(current := value))
  {
    var mid := t.(current := 100 * (value / 100));
    HundredsHeard(t, value / 100);
    TwoDigitsHeard(mid, value % 100);
    Then(t, HundredsTokens(value / 100), mid, TwoDigitTokens(value % 100), Some(t.(current := value)));
  }

  lemma GroupHeard(t: Tally, count: nat, ks: seq<Token>, scale: Token, said: Tally)
    requires Hear(t, ks) == Some(said)
    ensures Hear(t, Group(count, ks, scale)) == if count > 0 then HearToken(said, scale) else Some(t)
  {
    HearOne(said, scale);
    Then(t, ks, said, [scale], HearToken(said, scale));
  }

  /** A count of crores is heard as its thousands and the rest. */
  lemma CroresHeard(value: nat)
    requires value < 2_000_000
    ensures Hear(Tally(0, 0, 0), CroreTokens(value)) == Some(Tally(0, 1000 * (value / 1000), value % 1000))
  {
    var start, mid := Tally(0, 0, 0), Tally(0, 1000 * (value / 1000), 0);
    if value < 1000 {
      ThreeDigitsHeard(start, value);
    } else {
      var a, b := ThreeDigitTokens(value / 1000), ThreeDigitTokens(value % 1000);
      ThreeDigitsHeard(start, value / 1000);
      GroupHeard(start, 1, a, Thousand, Tally(0, 0, value / 1000));
      ThreeDigitsHeard(mid, value % 1000);
      Then(start, a + [Thousand], mid, b, Some(mid.(current := value % 1000)));
    }
  }

  lemma RestOfLakhs(n: nat, lakhs: nat, rest: nat)
    requires n == 100_000 * lakhs + rest && rest < 100_000
    ensures n % 100_000 == rest
  {
  }

  lemma RestOfThousands(n: nat, thousands: nat, rest: nat)
    requires n == 1000 * thousands + rest && rest < 1000
    ensures n % 1000 == rest
  {
  }

  lemma PlacesAddUp(whole: nat)
    ensures whole == 10_000_000 * Crores(whole) + 100_000 * Lakhs(whole) + 1000 * Thousands(whole) + whole % 1000
  {
    var c, belowCrore := whole / 10_000_000, whole % 10_000_000;
    var l, belowLakh := belowCrore / 100_000, belowCrore % 100_000;
    var t, r := belowLakh / 1000, belowLakh % 1000;
    assert whole == 10_000_000 * c + belowCrore && belowCrore == 100_000 * l + belowLakh && belowLakh == 1000 * t + r;
    RestOfLakhs(whole, 100 * c + l, belowLakh);
    RestOfThousands(whole, 10_000 * c + 100 * l + t, r);
  }

  lemma LakhsHeard(t: Tally, lakhs: nat)
    requires lakhs < 100 && t.current == 0
    ensures Hear(t, Group(lakhs, TwoDigitTokens(lakhs), Lakh)) == Some(t.(total := t.total + 100_000 * lakhs))
  {
    TwoDigitsHeard(t, lakhs);
    GroupHeard(t, lakhs, TwoDigitTokens(lakhs), Lakh, t.(current := lakhs));
  }

  lemma ThousandsHeard(t: Tally, thousands: nat)
    requires thousands < 100 && t.current == 0
    ensures Hear(t, Group(thousands, ThreeDigitTokens(thousands), Thousand)) == Some(t.(block := t.block + 1000 * thousands))
  {
    ThreeDigitsHeard(t, thousands);
    GroupHeard(t, thousands, ThreeDigitTokens(thousands), Thousand, t.(current := thousands));
  }

  lemma FourHeard(a: Tally, w: seq<Token>, b: Tally, x: seq<Token>, c: Tally, y: seq<Token>, d: Tally, z: seq<Token>, e: Tally)
    requires Hear(a, w) == Some(b) && Hear(b, x) == Some(c) && Hear(c, y) == Some(d) && Hear(d, z) == Some(e)
    ensures Hear(a, w + x + y + z) == Some(e)
  {
    Then(a, w, b, x, Some(c));
    Then(a, w + x, c, y, Some(d));
    Then(a, w + x + y, d, z, Some(e));
  }

  /** Below twenty lakh crore the words say the number. */
  lemma WholeIsHeard(whole: nat)
    requires Crores(whole) < 2_000_000
    ensures Heard(WholeTokens(whole)) == Some(whole)
  {
    if whole == 0 {
      HearOne(Tally(0, 0, 0), Zero);
    } else {
      var c, l, t, r := Crores(whole), Lakhs(whole), Thousands(whole), whole % 1000;
      var x, y := Tally(10_000_000 * c, 0, 0), Tally(10_000_000 * c + 100_000 * l, 0, 0);
      CroresHeard(c);
      GroupHeard(Tally(0, 0, 0), c, CroreTokens(c), Crore, Tally(0, 1000 * (c / 1000), c % 1000));
      LakhsHeard(x, l);
      ThousandsHeard(y, t);
      ThreeDigitsHeard(y.(block := 1000 * t), r);
      FourHeard(Tally(0, 0, 0), Group(c, CroreTokens(c), Crore), x, Group(l, TwoDigitTokens(l), Lakh), y,
                Group(t, ThreeDigitTokens(t), Thousand), y.(block := 1000 * t), ThreeDigitTokens(r),
                Tally(y.total, 1000 * t, r));
      PlacesAddUp(whole);
    }
  }

  /** From twenty lakh crore on, a count of hundreds is missing from the table. */
  lemma HugeWholeIsNotHeard(whole: nat)
    requires Crores(whole) >= 2_000_000
    ensures Heard(WholeTokens(whole)) == None
  {
    var h := HundredsTokens(Crores(whole) / 1000 / 100);
    assert h[0] == Unknown && Unknown in h;
    UnknownIsNotHeard(Tally(0, 0, 0), WholeTokens(whole));
  }

  /** Words that can stand in a number, or be printed for one that is too large. */
  predicate Spoken(k: Token) {
    !(k.And? || k.Paise? || k.Only? || k.Minus?)
  }

  predicate AllSpoken(ks: seq<Token>) {
    forall i | 0 <= i < |ks| :: Spoken(ks[i])
  }

  lemma ThreeDigitsAreSpoken(value: nat)
    ensures AllSpoken(ThreeDigitTokens(value))
    ensures value > 0 ==> ThreeDigitTokens(value) != []
  {
  }

  lemma CroresAreSpoken(crores: nat)
    ensures AllSpoken(CroreTokens(crores))
  {
    ThreeDigitsAreSpoken(crores);
    ThreeDigitsAreSpoken(crores / 1000);
    ThreeDigitsAreSpoken(crores % 1000);
  }

  lemma GroupIsSpoken(count: nat, ks: seq<Token>, scale: Token)
    requires AllSpoken(ks) && Spoken(scale)
    ensures AllSpoken(Group(count, ks, scale)) && (count > 0 ==> Group(count, ks, scale) != [])
  {
  }

  lemma SomePlaceIsNotZero(whole: nat)
    requires whole > 0
    ensures Crores(whole) > 0 || Lakhs(whole) > 0 || Thousands(whole) > 0 || whole % 1000 > 0
  {
    PlacesAddUp(whole);
  }

  lemma WholeIsSpoken(whole: nat)
    ensures WholeTokens(whole) != [] && AllSpoken(WholeTokens(whole))
  {
    if whole > 0 {
      var c, l, t, r := Crores(whole), Lakhs(whole), Thousands(whole), whole % 1000;
      SomePlaceIsNotZero(whole);
      CroresAreSpoken(c);
      GroupIsSpoken(c, CroreTokens(c), Crore);
      GroupIsSpoken(l, TwoDigitTokens(l), Lakh);
      ThreeDigitsAreSpoken(t);
      GroupIsSpoken(t, ThreeDigitTokens(t), Thousand);
      ThreeDigitsAreSpoken(r);
      SpokenJoin(Group(c, CroreTokens(c), Crore), Group(l, TwoDigitTokens(l), Lakh), Group(t, ThreeDigitTokens(t), Thousand),
                 ThreeDigitTokens(r));
    }
  }

  lemma SpokenJoin(a: seq<Token>, b: seq<Token>, c: seq<Token>, d: seq<Token>)
    requires AllSpoken(a) && AllSpoken(b) && AllSpoken(c) && AllSpoken(d)
    requires a != [] || b != [] || c != [] || d != []
    ensures AllSpoken(a + b + c + d) && a + b + c + d != []
  {
  }
}
