/** JSON strings as `JSON.stringify` writes them and as section 7 of RFC 8259 reads them. */
module JsonText {
  import opened Options

  /** A UTF-16 code unit: what a JavaScript string is made of. */
  type Unit = u: int | 0 <= u < 0x10000
  type Units = seq<Unit>

  const QUOTE: Unit := 0x22
  const COMMA: Unit := 0x2c
  const COLON: Unit := 0x3a
  const BACKSLASH: Unit := 0x5c
  const LOWER_U: Unit := 0x75

  predicate IsHigh(u: Unit) {
    0xd800 <= u < 0xdc00
  }

  predicate IsLow(u: Unit) {
    0xdc00 <= u < 0xe000
  }

  /** A high and a low surrogate together encode exactly the code points beyond the sixteen-bit ones. */
  lemma PairsAreSupplementary(high: Unit, low: Unit, point: int)
    ensures IsHigh(high) && IsLow(low) ==> 0x10000 <= 0x10000 + (high - 0xd800) * 0x400 + (low - 0xdc00) <= 0x10ffff
    ensures 0x10000 <= point <= 0x10ffff ==>
              IsHigh(0xd800 + (point - 0x10000) / 0x400) && IsLow(0xdc00 + (point - 0x10000) % 0x400)
  {
  }

  /** The letter after the backslash in a two-character escape, for the units that have one. */
  function ShortEscape(u: Unit): Option<Unit> {
    match u
    case 0x22 => Some(0x22)
    case 0x5c => Some(0x5c)
    case 0x08 => Some(0x62)
    case 0x0c => Some(0x66)
    case 0x0a => Some(0x6e)
    case 0x0d => Some(0x72)
    case 0x09 => Some(0x74)
    case _ => None
  }

  function HexDigit(d: int): Unit
    requires 0 <= d < 16
  {
    if d < 10 then 0x30 + d else 0x61 + d - 10
  }

  function HexEscape(u: Unit): Units {
    [BACKSLASH, LOWER_U, HexDigit(u / 4096), HexDigit(u / 256 % 16), HexDigit(u / 16 % 16), HexDigit(u % 16)]
  }

  /** A surrogate pair is kept; a surrogate alone and a control character are escaped. */
  function Escape(s: Units): Units {
    if s == [] then []
    else if ShortEscape(s[0]).Some? then [BACKSLASH, ShortEscape(s[0]).value] + Escape(s[1..])
    else if s[0] < 0x20 then HexEscape(s[0]) + Escape(s[1..])
    else if |s| > 1 && IsHigh(s[0]) && IsLow(s[1]) then [s[0], s[1]] + Escape(s[2..])
    else if IsHigh(s[0]) || IsLow(s[0]) then HexEscape(s[0]) + Escape(s[1..])
    else [s[0]] + Escape(s[1..])
  }

  function Quote(s: Units): Units {
    [QUOTE] + Escape(s) + [QUOTE]
  }

  // ---- Reading a string back --------------------------------------------------------

  function LongerBy(u: Unit, rest: Option<(Units, Units)>): Option<(Units, Units)> {
    match rest
    case None => None
    case Some(pair) => Some(([u] + pair.0, pair.1))
  }

  function HexValue(u: Unit): Option<int> {
    if 0x30 <= u <= 0x39 then Some(u - 0x30)
    else if 0x61 <= u <= 0x66 then Some(u - 0x61 + 10)
    else if 0x41 <= u <= 0x46 then Some(u - 0x41 + 10)
    else None
  }

  function UnitOf(a: int, b: int, c: int, d: int): Option<Unit> {
    var u := 4096 * a + 256 * b + 16 * c + d;
    if 0 <= u < 0x10000 then Some(u) else None
  }

  function ReadHex(t: Units): Option<Unit>
    requires |t| >= 4
  {
    match (HexValue(t[0]), HexValue(t[1]), HexValue(t[2]), HexValue(t[3]))
    case (Some(a), Some(b), Some(c), Some(d)) => UnitOf(a, b, c, d)
    case _ => None
  }

  function Unescaped(letter: Unit): Option<Unit> {
    match letter
    case 0x22 => Some(0x22)
    case 0x5c => Some(0x5c)
    case 0x2f => Some(0x2f)
    case 0x62 => Some(0x08)
    case 0x66 => Some(0x0c)
    case 0x6e => Some(0x0a)
    case 0x72 => Some(0x0d)
    case 0x74 => Some(0x09)
    case _ => None
  }

  /** The string up to its closing quote, and what follows the quote. */
  function ReadString(t: Units): Option<(Units, Units)>
    decreases |t|
  {
    if t == [] then None
    else if t[0] == QUOTE then Some(([], t[1..]))
    else if t[0] != BACKSLASH then
      if t[0] < 0x20 then None else LongerBy(t[0], ReadString(t[1..]))
    else if |t| >= 6 && t[1] == LOWER_U then
      match ReadHex(t[2..6])
      case None => None
      case Some(u) => LongerBy(u, ReadString(t[6..]))
    else if |t| >= 2 then
      match Unescaped(t[1])
      case None => None
      case Some(u) => LongerBy(u, ReadString(t[2..]))
    else None
  }

  lemma HexDigitReads(d: int)
    requires 0 <= d < 16
    ensures HexValue(HexDigit(d)) == Some(d)
  {
  }

  lemma FourDigits(u: int)
    requires 0 <= u < 0x10000
    ensures 0 <= u / 4096 < 16
    ensures u == 4096 * (u / 4096) + 256 * (u / 256 % 16) + 16 * (u / 16 % 16) + u % 16
  {
    assert u / 256 == 16 * (u / 4096) + u / 256 % 16;
    assert u / 16 == 16 * (u / 256) + u / 16 % 16;
    assert u == 16 * (u / 16) + u % 16;
  }

  lemma HexEscapeReads(u: Unit, rest: Units)
    ensures ReadString(HexEscape(u) + rest) == LongerBy(u, ReadString(rest))
  {
    var t := HexEscape(u) + rest;
    FourDigits(u);
    HexDigitReads(u / 4096);
    HexDigitReads(u / 256 % 16);
    HexDigitReads(u / 16 % 16);
    HexDigitReads(u % 16);
    assert t[6..] == rest;
    assert ReadHex(t[2..6]) == Some(u);
  }

  lemma ShortEscapeReads(u: Unit, rest: Units)
    requires ShortEscape(u).Some?
    ensures ReadString([BACKSLASH, ShortEscape(u).value] + rest) == LongerBy(u, ReadString(rest))
  {
    var t := [BACKSLASH, ShortEscape(u).value] + rest;
    assert t[2..] == rest;
    assert Unescaped(ShortEscape(u).value) == Some(u) && ShortEscape(u).value != LOWER_U;
  }

  lemma PlainReads(u: Unit, rest: Units)
    requires u >= 0x20 && u != QUOTE && u != BACKSLASH
    ensures ReadString([u] + rest) == LongerBy(u, ReadString(rest))
  {
    assert ([u] + rest)[1..] == rest;
  }

  lemma PrefixMoves(a: Units, b: Units, c: Units)
    ensures a + b + [QUOTE] + c == a + (b + [QUOTE] + c)
  {
  }

  /** What one unit that is not the first of a surrogate pair is written as. */
  function PieceOf(u: Unit): Units {
    if ShortEscape(u).Some? then [BACKSLASH, ShortEscape(u).value]
    else if u < 0x20 || IsHigh(u) || IsLow(u) then HexEscape(u)
    else [u]
  }

  predicate StartsWithPair(s: Units) {
    |s| > 1 && IsHigh(s[0]) && IsLow(s[1])
  }

  lemma EscapeOfOne(s: Units)
    requires s != [] && !StartsWithPair(s)
    ensures Escape(s) == PieceOf(s[0]) + Escape(s[1..])
  {
  }

  lemma PieceReads(u: Unit, rest: Units)
    ensures ReadString(PieceOf(u) + rest) == LongerBy(u, ReadString(rest))
  {
    if ShortEscape(u).Some? {
      ShortEscapeReads(u, rest);
    } else if u < 0x20 || IsHigh(u) || IsLow(u) {
      HexEscapeReads(u, rest);
    } else {
      PlainReads(u, rest);
    }
  }

  lemma PairReads(high: Unit, low: Unit, rest: Units)
    requires IsHigh(high) && IsLow(low)
    ensures ReadString([high, low] + rest) == LongerBy(high, LongerBy(low, ReadString(rest)))
  {
    assert [high] + ([low] + rest) == [high, low] + rest;
    PlainReads(low, rest);
    PlainReads(high, [low] + rest);
  }

  lemma ReadsOnAfterPiece(u: Unit, tail: Units, read: Units, rest: Units)
    requires ReadString(tail + [QUOTE] + rest) == Some((read, rest))
    ensures ReadString(PieceOf(u) + tail + [QUOTE] + rest) == Some(([u] + read, rest))
  {
    PrefixMoves(PieceOf(u), tail, rest);
    PieceReads(u, tail + [QUOTE] + rest);
  }

  lemma ReadsOnAfterPair(high: Unit, low: Unit, tail: Units, read: Units, rest: Units)
    requires IsHigh(high) && IsLow(low) && ReadString(tail + [QUOTE] + rest) == Some((read, rest))
    ensures ReadString([high, low] + tail + [QUOTE] + rest) == Some(([high, low] + read, rest))
  {
    assert [high] + ([low] + read) == [high, low] + read;
    PrefixMoves([high, low], tail, rest);
    PairReads(high, low, tail + [QUOTE] + rest);
  }

  /** A quoted string is read back, wherever it stands: nothing after it matters. */
  lemma {:induction false} ReadsBack(s: Units, rest: Units)
    ensures ReadString(Escape(s) + [QUOTE] + rest) == Some((s, rest))
    decreases |s|
  {
    if s == [] {
      assert Escape(s) + [QUOTE] + rest == [QUOTE] + rest;
      assert ([QUOTE] + rest)[1..] == rest;
    } else if StartsWithPair(s) {
      assert [s[0], s[1]] + s[2..] == s;
      ReadsBack(s[2..], rest);
      ReadsOnAfterPair(s[0], s[1], Escape(s[2..]), s[2..], rest);
    } else {
      assert [s[0]] + s[1..] == s;
      EscapeOfOne(s);
      ReadsBack(s[1..], rest);
      ReadsOnAfterPiece(s[0], Escape(s[1..]), s[1..], rest);
    }
  }

  lemma QuoteIsUnique(a: Units, b: Units, r: Units, s: Units)
    requires Quote(a) + r == Quote(b) + s
    ensures a == b && r == s
  {
    assert (Quote(a) + r)[1..] == Escape(a) + [QUOTE] + r;
    assert (Quote(b) + s)[1..] == Escape(b) + [QUOTE] + s;
    ReadsBack(a, r);
    ReadsBack(b, s);
  }
}
