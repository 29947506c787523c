/**
 * The fingerprint of a request body: a recursive printer with sorted keys. Two bodies print alike
 * exactly when they are the same value up to the order of members.
 */
module CanonicalJson {
  import opened Options
  import opened Text
  import opened JsonText

  /** A JavaScript number; a finite one other than -0 is known by the numeral it prints as. */
  datatype Number = Finite(numeral: Units) | NegativeZero | PositiveInfinity | NegativeInfinity | NotANumber

  datatype Json =
    | Undefined
    | Null
    | Bool(b: bool)
    | Num(n: Number)
    | Str(s: Units)
    | Arr(items: seq<Json>)
    | Obj(members: seq<Member>)

  datatype Member = Member(key: Units, value: Json)

  /** What `Number::toString` makes of a finite number: digits, sign, point and exponent. */
  predicate IsNumeral(t: Units) {
    && t != [] && (t[0] == 0x2d || IsDigit(t[0]))
    && forall k | 0 <= k < |t| :: IsNumeralUnit(t[k])
  }

  predicate IsDigit(u: Unit) {
    0x30 <= u <= 0x39
  }

  predicate IsNumeralUnit(u: Unit) {
    IsDigit(u) || u == 0x2b || u == 0x2d || u == 0x2e || u == 0x65
  }

  /** The fourteen characters a number may print with: digits, signs, point and exponent. */
  lemma NumeralUnits(u: Unit)
    ensures IsNumeralUnit(u) <==> u in {0x2b, 0x2d, 0x2e, 0x30, 0x31, 0x32, 0x33, 0x34, 0x35, 0x36, 0x37, 0x38, 0x39, 0x65}
    ensures IsNumeral([0x30, u]) <==> IsNumeralUnit(u)
    ensures IsNumeral([u, 0x30]) <==> IsNumeralUnit(u) && u !in {0x2b, 0x2e, 0x65}
  {
    assert [0x30, u][1] == u && [u, 0x30][0] == u;
  }

  predicate UniqueKeys(ms: seq<Member>) {
    forall i, j | 0 <= i < j < |ms| :: ms[i].key != ms[j].key
  }

  /** A value a program can hold: an object has one member a key. */
  predicate Value(j: Json) {
    match j
    case Num(Finite(t)) => IsNumeral(t)
    case Arr(items) => forall i | 0 <= i < |items| :: Value(items[i])
    case Obj(ms) => UniqueKeys(ms) && forall i | 0 <= i < |ms| :: Value(ms[i].value)
    case _ => true
  }

  /** A value JSON itself can carry: nothing undefined, every number finite and not -0. */
  predicate Plain(j: Json) {
    match j
    case Undefined => false
    case Num(n) => n.Finite? && IsNumeral(n.numeral)
    case Arr(items) => forall i | 0 <= i < |items| :: Plain(items[i])
    case Obj(ms) => UniqueKeys(ms) && forall i | 0 <= i < |ms| :: Plain(ms[i].value)
    case _ => true
  }

  /** The same value up to the order of members, at every depth. */
  ghost predicate Same(a: Json, b: Json)
    decreases a
  {
    match (a, b)
    case (Arr(x), Arr(y)) => |x| == |y| && forall i | 0 <= i < |x| :: Same(x[i], y[i])
    case (Obj(ms), Obj(ns)) =>
      && (forall i | 0 <= i < |ms| :: HasSame(ms[i], ns))
      && (forall k | 0 <= k < |ns| :: HasKey(ms, ns[k].key))
    case _ => a == b
  }

  ghost predicate HasSame(m: Member, ns: seq<Member>)
    decreases m
  {
    exists k | 0 <= k < |ns| :: ns[k].key == m.key && Same(m.value, ns[k].value)
  }

  ghost predicate HasKey(ms: seq<Member>, key: Units) {
    exists i | 0 <= i < |ms| :: ms[i].key == key
  }

  // ---- The order of keys ---------------------------------------------------------------

  /** `<` on strings: by code unit, a proper prefix first. */
  predicate Less(a: Units, b: Units) {
    b != [] && (a == [] || a[0] < b[0] || (a[0] == b[0] && Less(a[1..], b[1..])))
  }

  lemma {:induction false} LessIsAsymmetric(a: Units, b: Units)
    requires Less(a, b)
    ensures !Less(b, a) && a != b
  {
    if a != [] && a[0] == b[0] {
      LessIsAsymmetric(a[1..], b[1..]);
    }
  }

  lemma {:induction false} LessIsTransitive(a: Units, b: Units, c: Units)
    requires Less(a, b) && Less(b, c)
    ensures Less(a, c)
  {
    if a != [] && a[0] == b[0] == c[0] {
      LessIsTransitive(a[1..], b[1..], c[1..]);
    }
  }

  lemma {:induction false} LessIsTotal(a: Units, b: Units)
    ensures a == b || Less(a, b) || Less(b, a)
  {
    if a != [] && b != [] && a[0] == b[0] {
      LessIsTotal(a[1..], b[1..]);
      assert a == [a[0]] + a[1..] && b == [b[0]] + b[1..];
    }
  }

  // ---- The printer ------------------------------------------------------------------------

  const NULL_TEXT: Units := [0x6e, 0x75, 0x6c, 0x6c]
  const TRUE_TEXT: Units := [0x74, 0x72, 0x75, 0x65]
  const FALSE_TEXT: Units := [0x66, 0x61, 0x6c, 0x73, 0x65]
  const ZERO_TEXT: Units := [0x30]
  const OPEN_LIST: Unit := 0x5b
  const CLOSE_LIST: Unit := 0x5d
  const OPEN_OBJECT: Unit := 0x7b
  const CLOSE_OBJECT: Unit := 0x7d

  function NumberText(n: Number): Units {
    match n
    case Finite(t) => t
    case NegativeZero => ZERO_TEXT
    case _ => NULL_TEXT
  }

  /** A member with its value already printed. */
  datatype Entry = Entry(key: Units, text: Units)

  function Insert(e: Entry, s: seq<Entry>): seq<Entry> {
    if s == [] || !Less(s[0].key, e.key) then [e] + s else [s[0]] + Insert(e, s[1..])
  }

  function Sort(s: seq<Entry>): seq<Entry> {
    if s == [] then [] else Insert(s[0], Sort(s[1..]))
  }

  function EntryText(e: Entry): Units {
    Quote(e.key) + [COLON] + e.text
  }

  function EntryTexts(s: seq<Entry>): seq<Units> {
    seq(|s|, i requires 0 <= i < |s| => EntryText(s[i]))
  }

  function JoinTexts(s: seq<Units>): Units {
    if s == [] then [] else if |s| == 1 then s[0] else s[0] + [COMMA] + JoinTexts(s[1..])
  }

  /** Members that are undefined are dropped, the rest printed and sorted by key. */
  function Canonicalise(j: Json): Units
    decreases j
  {
    match j
    case Undefined => NULL_TEXT
    case Null => NULL_TEXT
    case Bool(b) => if b then TRUE_TEXT else FALSE_TEXT
    case Num(n) => NumberText(n)
    case Str(s) => Quote(s)
    case Arr(items) => [OPEN_LIST] + JoinTexts(CanonicaliseAll(items)) + [CLOSE_LIST]
    case Obj(ms) => [OPEN_OBJECT] + JoinTexts(EntryTexts(Sort(Entries(ms)))) + [CLOSE_OBJECT]
  }

  function CanonicaliseAll(items: seq<Json>): seq<Units>
    decreases items
  {
    if items == [] then [] else [Canonicalise(items[0])] + CanonicaliseAll(items[1..])
  }

  function Entries(ms: seq<Member>): seq<Entry>
    decreases ms
  {
    if ms == [] then []
    else (if ms[0].value.Undefined? then [] else [Entry(ms[0].key, Canonicalise(ms[0].value))]) + Entries(ms[1..])
  }

  lemma TwoItems(x: Json, y: Json)
    ensures CanonicaliseAll([x, y]) == [Canonicalise(x), Canonicalise(y)]
  {
    assert [x, y][1..] == [y] && [y][1..] == [];
    assert CanonicaliseAll([y]) == [Canonicalise(y)] + CanonicaliseAll([]);
  }

  /** `[x,y]`: the items in their order, a comma and nothing else between them. */
  lemma ListText(x: Json, y: Json)
    ensures Canonicalise(Arr([])) == [0x5b, 0x5d]
    ensures Canonicalise(Arr([x, y])) == [0x5b] + (Canonicalise(x) + [0x2c] + Canonicalise(y)) + [0x5d]
  {
    EmptyListText();
    TwoItems(x, y);
    PairText(Canonicalise(x), Canonicalise(y));
  }

  lemma EmptyListText()
    ensures Canonicalise(Arr([])) == [0x5b, 0x5d]
  {
    assert CanonicaliseAll([]) == [] && JoinTexts([]) == [];
  }

  function MemberText(m: Member): Units {
    Quote(m.key) + [0x3a] + Canonicalise(m.value)
  }

  lemma OneEntry(m: Member)
    ensures Entries([m]) == if m.value.Undefined? then [] else [Entry(m.key, Canonicalise(m.value))]
  {
    assert [m][1..] == [];
    assert Entries([m]) == (if m.value.Undefined? then [] else [Entry(m.key, Canonicalise(m.value))]) + Entries([]);
  }

  lemma TwoSorted(a: Entry, b: Entry)
    requires Less(a.key, b.key)
    ensures Sort([a, b]) == [a, b] && Sort([b, a]) == [a, b]
  {
    LessIsAsymmetric(a.key, b.key);
    OneSorted(a);
    OneSorted(b);
    assert [a, b][1..] == [b] && [b, a][1..] == [a];
    assert Sort([a, b]) == Insert(a, [b]) == [a] + [b];
    assert Sort([b, a]) == Insert(b, [a]) == [a] + Insert(b, []);
  }

  lemma OneSorted(e: Entry)
    ensures Sort([e]) == [e] && Insert(e, []) == [e]
  {
    assert [e][1..] == [] && [e] + [] == [e];
  }

  lemma PairText(x: Units, y: Units)
    ensures JoinTexts([x, y]) == x + [0x2c] + y
  {
    assert [x, y][1..] == [y];
  }

  /** `{"m":x,"n":y}`, whichever of the two comes first in the body; an undefined member is not there. */
  lemma ObjectText(m: Member, n: Member)
    requires Less(m.key, n.key) && !m.value.Undefined?
    ensures n.value.Undefined? ==> Canonicalise(Obj([m, n])) == [0x7b] + MemberText(m) + [0x7d]
    ensures !n.value.Undefined? ==>
              && Canonicalise(Obj([m, n])) == [0x7b] + (MemberText(m) + [0x2c] + MemberText(n)) + [0x7d]
              && Canonicalise(Obj([n, m])) == Canonicalise(Obj([m, n]))
  {
    OneEntry(m);
    OneEntry(n);
    assert [m, n][1..] == [n] && [n, m][1..] == [m];
    var a, b := Entry(m.key, Canonicalise(m.value)), Entry(n.key, Canonicalise(n.value));
    if n.value.Undefined? {
      assert Entries([m, n]) == [a];
      assert [a][1..] == [] && Sort([a]) == Insert(a, []) == [a];
      assert EntryTexts([a]) == [MemberText(m)];
    } else {
      assert Entries([m, n]) == [a, b] && Entries([n, m]) == [b, a];
      TwoSorted(a, b);
      assert EntryTexts([a, b]) == [MemberText(m), MemberText(n)];
      PairText(MemberText(m), MemberText(n));
    }
  }

  /** The texts that stand alone: `null`, `true`, `false` and `0`. */
  lemma LiteralTexts()
    ensures Canonicalise(Null) == [0x6e, 0x75, 0x6c, 0x6c]
    ensures Canonicalise(Bool(true)) == [0x74, 0x72, 0x75, 0x65]
    ensures Canonicalise(Bool(false)) == [0x66, 0x61, 0x6c, 0x73, 0x65]
    ensures Canonicalise(Num(NegativeZero)) == [0x30]
  {
  }

  // ---- Unique readability: nothing printed is the start of something else printed ----------

  /** What may follow a value: nothing, a comma or a closing bracket. */
  predicate Ends(r: Units) {
    r == [] || r[0] == COMMA || r[0] == CLOSE_LIST || r[0] == CLOSE_OBJECT
  }

  /** Wherever `x` and `y` could both be read off the front of a text, they are the same. */
  ghost predicate Apart(x: Units, y: Units) {
    forall r: Units, s: Units :: Ends(r) && Ends(s) && x + r == y + s ==> x == y && r == s
  }

  /** What follows the first of several joined texts. */
  function After(xs: seq<Units>, close: Unit, r: Units): Units {
    if xs == [] then [close] + r else [COMMA] + (JoinTexts(xs) + [close] + r)
  }

  lemma JoinedStarts(xs: seq<Units>, close: Unit, r: Units)
    requires xs != []
    ensures JoinTexts(xs) + [close] + r == xs[0] + After(xs[1..], close, r)
  {
    if |xs| > 1 {
      var rest := JoinTexts(xs[1..]);
      Associates(xs[0] + [COMMA], rest, [close]);
      Associates(xs[0] + [COMMA], rest + [close], r);
      Associates(xs[0], [COMMA], rest + [close] + r);
    } else {
      Associates(xs[0], [close], r);
    }
  }

  lemma ApartApplies(x: Units, y: Units, r: Units, s: Units)
    requires Apart(x, y) && Ends(r) && Ends(s) && x + r == y + s
    ensures x == y && r == s
  {
  }

  /** A list of texts apart from each other is read back from its joined text. */
  lemma {:induction false} JoinIsUnique(xs: seq<Units>, ys: seq<Units>, close: Unit, r: Units, s: Units)
    requires close == CLOSE_LIST || close == CLOSE_OBJECT
    requires forall i, k | 0 <= i < |xs| && 0 <= k < |ys| :: Apart(xs[i], ys[k])
    requires forall i | 0 <= i < |xs| :: xs[i] != [] && xs[i][0] != close
    requires forall k | 0 <= k < |ys| :: ys[k] != [] && ys[k][0] != close
    requires JoinTexts(xs) + [close] + r == JoinTexts(ys) + [close] + s
    ensures xs == ys && r == s
    decreases |xs|, 0
  {
    if xs == [] || ys == [] {
      JoinOfNone(xs, ys, close, r, s);
    } else {
      assert xs == [xs[0]] + xs[1..] && ys == [ys[0]] + ys[1..];
      JoinedStarts(xs, close, r);
      JoinedStarts(ys, close, s);
      ApartApplies(xs[0], ys[0], After(xs[1..], close, r), After(ys[1..], close, s));
      AfterIsUnique(xs[1..], ys[1..], close, r, s);
    }
  }

  lemma {:induction false} AfterIsUnique(xs: seq<Units>, ys: seq<Units>, close: Unit, r: Units, s: Units)
    requires close == CLOSE_LIST || close == CLOSE_OBJECT
    requires forall i, k | 0 <= i < |xs| && 0 <= k < |ys| :: Apart(xs[i], ys[k])
    requires forall i | 0 <= i < |xs| :: xs[i] != [] && xs[i][0] != close
    requires forall k | 0 <= k < |ys| :: ys[k] != [] && ys[k][0] != close
    requires After(xs, close, r) == After(ys, close, s)
    ensures xs == ys && r == s
    decreases |xs|, 1
  {
    assert After(xs, close, r)[0] == After(ys, close, s)[0];
    if xs == [] {
      assert ([close] + r)[1..] == r && ([close] + s)[1..] == s;
    } else {
      var p, q := JoinTexts(xs) + [close] + r, JoinTexts(ys) + [close] + s;
      assert ([COMMA] + p)[1..] == p && ([COMMA] + q)[1..] == q;
      JoinIsUnique(xs, ys, close, r, s);
    }
  }

  lemma JoinedFirst(xs: seq<Units>, close: Unit, r: Units)
    requires xs != [] && xs[0] != []
    ensures (JoinTexts(xs) + [close] + r)[0] == xs[0][0]
  {
    JoinedStarts(xs, close, r);
  }

  lemma JoinOfNone(xs: seq<Units>, ys: seq<Units>, close: Unit, r: Units, s: Units)
    requires xs == [] || ys == []
    requires forall i | 0 <= i < |xs| :: xs[i] != [] && xs[i][0] != close
    requires forall k | 0 <= k < |ys| :: ys[k] != [] && ys[k][0] != close
    requires JoinTexts(xs) + [close] + r == JoinTexts(ys) + [close] + s
    ensures xs == ys && r == s
  {
    if xs != [] {
      JoinedFirst(xs, close, r);
    } else if ys != [] {
      JoinedFirst(ys, close, s);
    }
    assert [] + [close] + r == [close] + r && [] + [close] + s == [close] + s;
    assert ([close] + r)[1..] == r && ([close] + s)[1..] == s;
  }

  lemma LongerContinues(x: Units, r: Units, y: Units, s: Units)
    requires x + r == y + s && |x| < |y|
    ensures r != [] && r[0] == y[|x|]
  {
    assert (x + r)[|x|] == y[|x|];
  }

  lemma NumeralsAreApart(x: Units, y: Units)
    requires IsNumeral(x) && IsNumeral(y)
    ensures Apart(x, y)
  {
    forall r: Units, s: Units | Ends(r) && Ends(s) && x + r == y + s
      ensures x == y && r == s
    {
      if |x| < |y| {
        LongerContinues(x, r, y, s);
      } else if |y| < |x| {
        LongerContinues(y, s, x, r);
      }
      SameLengthSplits(x, r, y, s);
    }
  }

  lemma SameLengthSplits(x: Units, r: Units, y: Units, s: Units)
    requires x + r == y + s && |x| == |y|
    ensures x == y && r == s
  {
    assert x == (x + r)[..|x|] == (y + s)[..|y|] == y;
    assert r == (x + r)[|x|..] == (y + s)[|y|..] == s;
  }

  lemma EntriesAreApart(e: Entry, f: Entry)
    requires Apart(e.text, f.text)
    ensures Apart(EntryText(e), EntryText(f))
  {
    forall r: Units, s: Units | Ends(r) && Ends(s) && EntryText(e) + r == EntryText(f) + s
      ensures e == f && r == s
    {
      assert EntryText(e) + r == Quote(e.key) + ([COLON] + (e.text + r));
      assert EntryText(f) + s == Quote(f.key) + ([COLON] + (f.text + s));
      QuoteIsUnique(e.key, f.key, [COLON] + (e.text + r), [COLON] + (f.text + s));
      assert e.text + r == ([COLON] + (e.text + r))[1..] == ([COLON] + (f.text + s))[1..] == f.text + s;
    }
  }

  lemma EntryTextsAreInjective(es: seq<Entry>, fs: seq<Entry>)
    requires EntryTexts(es) == EntryTexts(fs)
    ensures es == fs
  {
    assert |es| == |EntryTexts(es)| == |EntryTexts(fs)| == |fs|;
    forall k | 0 <= k < |es|
      ensures es[k] == fs[k]
    {
      var e, f := es[k], fs[k];
      assert EntryText(e) == EntryTexts(es)[k] == EntryTexts(fs)[k] == EntryText(f);
      Associates(Quote(e.key), [COLON], e.text);
      Associates(Quote(f.key), [COLON], f.text);
      QuoteIsUnique(e.key, f.key, [COLON] + e.text, [COLON] + f.text);
      assert e.text == ([COLON] + e.text)[1..] == ([COLON] + f.text)[1..] == f.text;
    }
  }

  /** What a value's text starts with tells what it is. */
  predicate StartsAs(j: Json, u: Unit) {
    match j
    case Undefined => u == NULL_TEXT[0]
    case Null => u == NULL_TEXT[0]
    case Bool(b) => u == if b then TRUE_TEXT[0] else FALSE_TEXT[0]
    case Num(n) => if n.Finite? || n.NegativeZero? then u == 0x2d || IsDigit(u) else u == NULL_TEXT[0]
    case Str(_) => u == QUOTE
    case Arr(_) => u == OPEN_LIST
    case Obj(_) => u == OPEN_OBJECT
  }

  lemma CanonicalStarts(j: Json)
    requires Value(j)
    ensures Canonicalise(j) != [] && StartsAs(j, Canonicalise(j)[0])
  {
  }

  lemma {:induction false} CanonicaliseAllIs(items: seq<Json>)
    ensures |CanonicaliseAll(items)| == |items|
    ensures forall i | 0 <= i < |items| :: CanonicaliseAll(items)[i] == Canonicalise(items[i])
  {
    if items != [] {
      CanonicaliseAllIs(items[1..]);
      forall i | 0 < i < |items|
        ensures CanonicaliseAll(items)[i] == Canonicalise(items[i])
      {
        assert items[1..][i - 1] == items[i];
      }
    }
  }

  function EntryOf(m: Member): Entry {
    Entry(m.key, Canonicalise(m.value))
  }

  lemma {:induction false} EntriesAre(ms: seq<Member>)
    ensures forall k | 0 <= k < |Entries(ms)| :: IsEntryOf(ms, Entries(ms)[k])
    ensures forall i | 0 <= i < |ms| && !ms[i].value.Undefined? ::
              EntryOf(ms[i]) in Entries(ms)
  {
    if ms != [] {
      EntriesAre(ms[1..]);
      var first := if ms[0].value.Undefined? then [] else [Entry(ms[0].key, Canonicalise(ms[0].value))];
      var rest := Entries(ms[1..]);
      forall k | 0 <= k < |first + rest|
        ensures IsEntryOf(ms, (first + rest)[k])
      {
        if k >= |first| {
          assert IsEntryOf(ms[1..], rest[k - |first|]);
        }
      }
      forall i | 0 <= i < |ms| && !ms[i].value.Undefined?
        ensures EntryOf(ms[i]) in first + rest
      {
        if i > 0 {
          assert ms[1..][i - 1] == ms[i];
        }
      }
    }
  }

  ghost predicate IsEntryOf(ms: seq<Member>, e: Entry) {
    exists i | 0 <= i < |ms| ::
      !ms[i].value.Undefined? && ms[i].key == e.key && e.text == Canonicalise(ms[i].value)
  }

  lemma {:induction false} SortSelects(s: seq<Entry>)
    ensures |Sort(s)| == |s| && forall e :: e in Sort(s) <==> e in s
  {
    if s != [] {
      SortSelects(s[1..]);
      InsertSelects(s[0], Sort(s[1..]));
    }
  }

  lemma {:induction false} InsertSelects(e: Entry, s: seq<Entry>)
    ensures |Insert(e, s)| == |s| + 1 && forall f :: f in Insert(e, s) <==> f == e || f in s
  {
    if s != [] && Less(s[0].key, e.key) {
      InsertSelects(e, s[1..]);
    }
  }

  /** No value's text is the start of a different value's text, where a value may end. */
  lemma {:induction false} CanonicalTextsAreApart(a: Json, b: Json)
    requires Value(a) && Value(b)
    ensures Apart(Canonicalise(a), Canonicalise(b))
    decreases a, 1
  {
    forall r: Units, s: Units | Ends(r) && Ends(s) && Canonicalise(a) + r == Canonicalise(b) + s
      ensures Canonicalise(a) == Canonicalise(b) && r == s
    {
      ReadOffFront(a, b, r, s);
    }
  }

  lemma {:induction false} ReadOffFront(a: Json, b: Json, r: Units, s: Units)
    requires Value(a) && Value(b) && Ends(r) && Ends(s) && Canonicalise(a) + r == Canonicalise(b) + s
    ensures Canonicalise(a) == Canonicalise(b) && r == s
    decreases a, 0
  {
    CanonicalStarts(a);
    CanonicalStarts(b);
    assert Canonicalise(a)[0] == (Canonicalise(a) + r)[0] == (Canonicalise(b) + s)[0] == Canonicalise(b)[0];
    match a
    case Str(x) =>
      QuoteIsUnique(x, b.s, r, s);
    case Arr(x) =>
      ListsReadOff(x, b.items, r, s);
    case Obj(ms) =>
      ObjectsReadOff(ms, b.members, r, s);
    case Num(n) =>
      if n.Finite? || n.NegativeZero? {
        NumeralsAreApart(NumberText(n), NumberText(b.n));
        assert Apart(Canonicalise(a), Canonicalise(b));
      } else {
        SameLengthSplits(Canonicalise(a), r, Canonicalise(b), s);
      }
    case _ =>
      SameLengthSplits(Canonicalise(a), r, Canonicalise(b), s);
  }

  lemma {:induction false} ListsReadOff(x: seq<Json>, y: seq<Json>, r: Units, s: Units)
    requires Value(Arr(x)) && Value(Arr(y)) && Canonicalise(Arr(x)) + r == Canonicalise(Arr(y)) + s
    ensures CanonicaliseAll(x) == CanonicaliseAll(y) && r == s
    decreases x, 0
  {
    var xs, ys := CanonicaliseAll(x), CanonicaliseAll(y);
    CanonicaliseAllIs(x);
    CanonicaliseAllIs(y);
    forall i, k | 0 <= i < |xs| && 0 <= k < |ys|
      ensures Apart(xs[i], ys[k]) && xs[i] != [] && xs[i][0] != CLOSE_LIST && ys[k] != [] && ys[k][0] != CLOSE_LIST
    {
      CanonicalTextsAreApart(x[i], y[k]);
      CanonicalStarts(x[i]);
      CanonicalStarts(y[k]);
    }
    InsideIsUnique(OPEN_LIST, CLOSE_LIST, JoinTexts(xs), JoinTexts(ys), r, s);
    JoinIsUnique(xs, ys, CLOSE_LIST, r, s);
  }

  lemma {:induction false} ObjectsReadOff(ms: seq<Member>, ns: seq<Member>, r: Units, s: Units)
    requires Value(Obj(ms)) && Value(Obj(ns)) && Canonicalise(Obj(ms)) + r == Canonicalise(Obj(ns)) + s
    ensures Sort(Entries(ms)) == Sort(Entries(ns)) && r == s
    decreases ms, 0
  {
    var es, fs := Sort(Entries(ms)), Sort(Entries(ns));
    SortSelects(Entries(ms));
    SortSelects(Entries(ns));
    forall i, k | 0 <= i < |es| && 0 <= k < |fs|
      ensures Apart(EntryText(es[i]), EntryText(fs[k]))
    {
      assert es[i] in Entries(ms) && fs[k] in Entries(ns);
      EntriesAre(ms);
      EntriesAre(ns);
      var p :| 0 <= p < |ms| && es[i].text == Canonicalise(ms[p].value);
      var q :| 0 <= q < |ns| && fs[k].text == Canonicalise(ns[q].value);
      CanonicalTextsAreApart(ms[p].value, ns[q].value);
      EntriesAreApart(es[i], fs[k]);
    }
    var xs, ys := EntryTexts(es), EntryTexts(fs);
    forall i | 0 <= i < |es|
      ensures xs[i] != [] && xs[i][0] == QUOTE
    {
      assert xs[i] == EntryText(es[i]);
    }
    forall k | 0 <= k < |fs|
      ensures ys[k] != [] && ys[k][0] == QUOTE
    {
      assert ys[k] == EntryText(fs[k]);
    }
    InsideIsUnique(OPEN_OBJECT, CLOSE_OBJECT, JoinTexts(xs), JoinTexts(ys), r, s);
    JoinIsUnique(xs, ys, CLOSE_OBJECT, r, s);
    EntryTextsAreInjective(es, fs);
  }

  lemma InsideIsUnique(open: Unit, close: Unit, p: Units, q: Units, r: Units, s: Units)
    requires [open] + p + [close] + r == [open] + q + [close] + s
    ensures p + [close] + r == q + [close] + s
  {
    assert p + [close] + r == ([open] + p + [close] + r)[1..];
    assert q + [close] + s == ([open] + q + [close] + s)[1..];
  }

  // ---- Sorting: the order of members does not show --------------------------------------------

  ghost predicate InOrder(s: seq<Entry>) {
    forall i, k | 0 <= i < k < |s| :: Less(s[i].key, s[k].key)
  }

  lemma {:induction false} InsertKeepsOrder(e: Entry, s: seq<Entry>)
    requires InOrder(s) && forall k | 0 <= k < |s| :: s[k].key != e.key
    ensures InOrder(Insert(e, s))
  {
    if s != [] {
      LessIsTotal(s[0].key, e.key);
      if Less(s[0].key, e.key) {
        InsertKeepsOrder(e, s[1..]);
        InsertSelects(e, s[1..]);
        var rest := Insert(e, s[1..]);
        forall k | 0 <= k < |rest|
          ensures Less(s[0].key, rest[k].key)
        {
          assert rest[k] in rest;
          if rest[k] != e {
            var i :| 0 <= i < |s[1..]| && s[1..][i] == rest[k];
            assert s[i + 1] == rest[k];
          }
        }
      } else {
        forall k | 0 <= k < |s|
          ensures Less(e.key, s[k].key)
        {
          if k > 0 {
            LessIsTransitive(e.key, s[0].key, s[k].key);
          }
        }
      }
    }
  }

  ghost predicate UniqueEntries(s: seq<Entry>) {
    forall i, k | 0 <= i < k < |s| :: s[i].key != s[k].key
  }

  lemma {:induction false} SortKeepsOrder(s: seq<Entry>)
    requires UniqueEntries(s)
    ensures InOrder(Sort(s))
  {
    if s != [] {
      SortKeepsOrder(s[1..]);
      SortSelects(s[1..]);
      var sorted := Sort(s[1..]);
      forall k | 0 <= k < |sorted|
        ensures sorted[k].key != s[0].key
      {
        assert sorted[k] in s[1..];
        var i :| 0 <= i < |s[1..]| && s[1..][i] == sorted[k];
        assert s[i + 1] == sorted[k];
      }
      InsertKeepsOrder(s[0], sorted);
    }
  }

  lemma {:induction false} EntriesAreUnique(ms: seq<Member>)
    requires UniqueKeys(ms)
    ensures UniqueEntries(Entries(ms))
  {
    if ms != [] {
      EntriesAreUnique(ms[1..]);
      EntriesAre(ms[1..]);
      var rest := Entries(ms[1..]);
      forall k | 0 <= k < |rest|
        ensures rest[k].key != ms[0].key
      {
        var i :| 0 <= i < |ms[1..]| && ms[1..][i].key == rest[k].key;
        assert ms[i + 1].key == rest[k].key;
      }
    }
  }

  /** One ordered list for one set of entries. */
  lemma {:induction false} OrderedListIsUnique(s: seq<Entry>, t: seq<Entry>)
    requires InOrder(s) && InOrder(t) && forall e :: e in s <==> e in t
    ensures s == t
  {
    BothEmpty(s, t);
    if s != [] {
      FirstIsLeast(s, t);
      FirstIsLeast(t, s);
      LessIsTotal(s[0].key, t[0].key);
      assert s[0].key == t[0].key;
      FirstsAgree(s, t);
      forall e
        ensures e in s[1..] <==> e in t[1..]
      {
        TailHolds(s, e);
        TailHolds(t, e);
      }
      OrderedListIsUnique(s[1..], t[1..]);
      assert s == [s[0]] + s[1..] && t == [t[0]] + t[1..];
    }
  }

  lemma BothEmpty(s: seq<Entry>, t: seq<Entry>)
    requires forall e :: e in s <==> e in t
    ensures s == [] <==> t == []
  {
    assert s != [] ==> s[0] in s;
    assert t != [] ==> t[0] in t;
  }

  lemma FirstIsLeast(s: seq<Entry>, t: seq<Entry>)
    requires InOrder(s) && s != [] && t != [] && forall e :: e in s <==> e in t
    ensures !Less(t[0].key, s[0].key)
  {
    assert t[0] in s;
    var k :| 0 <= k < |s| && s[k] == t[0];
    if k > 0 {
      LessIsAsymmetric(s[0].key, s[k].key);
    } else if Less(s[0].key, s[0].key) {
      LessIsAsymmetric(s[0].key, s[0].key);
    }
  }

  lemma FirstsAgree(s: seq<Entry>, t: seq<Entry>)
    requires InOrder(s) && s != [] && t != [] && s[0].key == t[0].key && forall e :: e in s <==> e in t
    ensures s[0] == t[0]
  {
    assert t[0] in s;
    var k :| 0 <= k < |s| && s[k] == t[0];
    if k > 0 {
      LessIsAsymmetric(s[0].key, s[k].key);
    }
  }

  lemma TailHolds(s: seq<Entry>, e: Entry)
    requires InOrder(s) && s != []
    ensures e in s[1..] <==> e in s && e != s[0]
  {
    if e in s[1..] {
      var k :| 0 <= k < |s[1..]| && s[1..][k] == e;
      assert s[k + 1] == e;
      LessIsAsymmetric(s[0].key, s[k + 1].key);
    }
  }

  /** Sorting forgets the order and nothing else. */
  lemma SortedAlikeIffSameEntries(s: seq<Entry>, t: seq<Entry>)
    requires UniqueEntries(s) && UniqueEntries(t)
    ensures Sort(s) == Sort(t) <==> forall e :: e in s <==> e in t
  {
    SortSelects(s);
    SortSelects(t);
    SortKeepsOrder(s);
    SortKeepsOrder(t);
    if forall e :: e in s <==> e in t {
      OrderedListIsUnique(Sort(s), Sort(t));
    }
    if Sort(s) == Sort(t) {
      forall e
        ensures e in s <==> e in t
      {
        assert e in Sort(s) <==> e in Sort(t);
      }
    }
  }

  // ---- The fingerprint tells values apart, and nothing else ----------------------------------

  /** For bodies JSON can carry: the same text exactly when the same value up to member order. */
  lemma {:induction false} SameTextIffSameValue(a: Json, b: Json)
    requires Plain(a) && Plain(b)
    ensures Canonicalise(a) == Canonicalise(b) <==> Same(a, b)
    decreases a, 1
  {
    PlainIsValue(a);
    PlainIsValue(b);
    if a.Arr? && b.Arr? {
      SameListsPrintAlike(a.items, b.items);
    } else if a.Obj? && b.Obj? {
      SameObjectsPrintAlike(a.members, b.members);
    } else {
      ScalarsPrintApart(a, b);
    }
  }

  lemma {:induction false} PlainIsValue(j: Json)
    requires Plain(j)
    ensures Value(j)
    decreases j
  {
    match j
    case Arr(items) =>
      forall i | 0 <= i < |items|
        ensures Value(items[i])
      {
        PlainIsValue(items[i]);
      }
    case Obj(ms) =>
      forall i | 0 <= i < |ms|
        ensures Value(ms[i].value)
      {
        PlainIsValue(ms[i].value);
      }
    case _ =>
  }

  lemma ScalarsPrintApart(a: Json, b: Json)
    requires Plain(a) && Plain(b) && !(a.Arr? && b.Arr?) && !(a.Obj? && b.Obj?)
    ensures Canonicalise(a) == Canonicalise(b) <==> a == b
  {
    PlainIsValue(a);
    PlainIsValue(b);
    CanonicalStarts(a);
    CanonicalStarts(b);
    if a.Str? && b.Str? && Canonicalise(a) == Canonicalise(b) {
      assert Quote(a.s) + [] == Quote(b.s) + [];
      QuoteIsUnique(a.s, b.s, [], []);
    }
  }

  lemma {:induction false} SameListsPrintAlike(x: seq<Json>, y: seq<Json>)
    requires Plain(Arr(x)) && Plain(Arr(y))
    ensures Canonicalise(Arr(x)) == Canonicalise(Arr(y)) <==> Same(Arr(x), Arr(y))
    decreases x, 0
  {
    PlainIsValue(Arr(x));
    PlainIsValue(Arr(y));
    CanonicaliseAllIs(x);
    CanonicaliseAllIs(y);
    if Canonicalise(Arr(x)) == Canonicalise(Arr(y)) {
      ListsReadOff(x, y, [], []);
    }
    assert Canonicalise(Arr(x)) == Canonicalise(Arr(y)) <==> CanonicaliseAll(x) == CanonicaliseAll(y);
    forall i | 0 <= i < |x| && i < |y|
      ensures CanonicaliseAll(x)[i] == CanonicaliseAll(y)[i] <==> Same(x[i], y[i])
    {
      SameTextIffSameValue(x[i], y[i]);
    }
  }

  lemma {:induction false} SameObjectsPrintAlike(ms: seq<Member>, ns: seq<Member>)
    requires Plain(Obj(ms)) && Plain(Obj(ns))
    ensures Canonicalise(Obj(ms)) == Canonicalise(Obj(ns)) <==> Same(Obj(ms), Obj(ns))
    decreases ms, 0
  {
    PlainIsValue(Obj(ms));
    PlainIsValue(Obj(ns));
    if Canonicalise(Obj(ms)) == Canonicalise(Obj(ns)) {
      ObjectsReadOff(ms, ns, [], []);
    }
    EntriesAreUnique(ms);
    EntriesAreUnique(ns);
    SortedAlikeIffSameEntries(Entries(ms), Entries(ns));
    forall i | 0 <= i < |ms|
      ensures HasSame(ms[i], ns) <==> EntryOf(ms[i]) in Entries(ns)
    {
      SameMemberIffEntry(ms[i], ns);
    }
    EntriesWithin(ms, Entries(ns));
    KeysWithin(ms, ns);
    WithinAndSameKeys(Entries(ms), Entries(ns));
  }

  lemma {:induction false} SameMemberIffEntry(m: Member, ns: seq<Member>)
    requires Plain(m.value) && Plain(Obj(ns))
    ensures HasSame(m, ns) <==> EntryOf(m) in Entries(ns)
    decreases m, 0
  {
    EntriesAre(ns);
    forall k | 0 <= k < |ns|
      ensures Canonicalise(m.value) == Canonicalise(ns[k].value) <==> Same(m.value, ns[k].value)
      ensures EntryOf(ns[k]) in Entries(ns)
    {
      assert Plain(ns[k].value);
      SameTextIffSameValue(m.value, ns[k].value);
    }
    if HasSame(m, ns) {
      var k :| 0 <= k < |ns| && ns[k].key == m.key && Same(m.value, ns[k].value);
      assert EntryOf(ns[k]) == EntryOf(m);
    }
    if EntryOf(m) in Entries(ns) {
      var k :| 0 <= k < |ns| && ns[k].key == m.key && Canonicalise(m.value) == Canonicalise(ns[k].value);
      assert Same(m.value, ns[k].value);
    }
  }

  ghost predicate Within(s: seq<Entry>, t: seq<Entry>) {
    forall e :: e in s ==> e in t
  }

  lemma {:induction false} EntriesWithin(ms: seq<Member>, t: seq<Entry>)
    requires Plain(Obj(ms))
    ensures Within(Entries(ms), t) <==> forall i | 0 <= i < |ms| :: EntryOf(ms[i]) in t
  {
    EntriesAre(ms);
    forall i | 0 <= i < |ms|
      ensures EntryOf(ms[i]) in Entries(ms)
    {
      assert Plain(ms[i].value);
    }
    if forall i | 0 <= i < |ms| :: EntryOf(ms[i]) in t {
      forall e | e in Entries(ms)
        ensures e in t
      {
        var i :| 0 <= i < |ms| && ms[i].key == e.key && e.text == Canonicalise(ms[i].value);
        assert EntryOf(ms[i]) == e;
      }
    }
  }

  ghost predicate SharesKeys(s: seq<Entry>, t: seq<Entry>) {
    forall f :: f in t ==> HasEntryKey(s, f.key)
  }

  ghost predicate HasEntryKey(s: seq<Entry>, key: Units) {
    exists e :: e in s && e.key == key
  }

  lemma {:induction false} KeysWithin(ms: seq<Member>, ns: seq<Member>)
    requires Plain(Obj(ms)) && Plain(Obj(ns))
    ensures SharesKeys(Entries(ms), Entries(ns)) <==> forall k | 0 <= k < |ns| :: HasKey(ms, ns[k].key)
  {
    EntriesAre(ns);
    forall key: Units
      ensures HasKey(ms, key) <==> HasEntryKey(Entries(ms), key)
    {
      KeyHasEntry(ms, key);
    }
    forall k | 0 <= k < |ns|
      ensures EntryOf(ns[k]) in Entries(ns)
    {
      assert Plain(ns[k].value);
    }
  }

  lemma {:induction false} KeyHasEntry(ms: seq<Member>, key: Units)
    requires Plain(Obj(ms))
    ensures HasKey(ms, key) <==> HasEntryKey(Entries(ms), key)
  {
    EntriesAre(ms);
    if HasKey(ms, key) {
      var i :| 0 <= i < |ms| && ms[i].key == key;
      assert Plain(ms[i].value) && EntryOf(ms[i]) in Entries(ms);
    }
  }

  lemma WithinAndSameKeys(s: seq<Entry>, t: seq<Entry>)
    requires UniqueEntries(t)
    ensures Within(s, t) && SharesKeys(s, t) <==> forall e :: e in s <==> e in t
  {
    if Within(s, t) && SharesKeys(s, t) {
      forall f | f in t
        ensures f in s
      {
        assert HasEntryKey(s, f.key);
        var e :| e in s && e.key == f.key;
        var i :| 0 <= i < |t| && t[i] == f;
        var k :| 0 <= k < |t| && t[k] == e;
        assert i == k;
      }
    }
  }

  // ---- Values JSON cannot carry --------------------------------------------------------------

  /** What JSON makes of a value: undefined and non-finite become null, undefined members go, -0 becomes 0. */
  function Settle(j: Json): Json
    decreases j
  {
    match j
    case Undefined => Null
    case Num(n) => if n.Finite? then j else if n.NegativeZero? then Num(Finite(ZERO_TEXT)) else Null
    case Arr(items) => Arr(SettleAll(items))
    case Obj(ms) => Obj(SettleMembers(ms))
    case _ => j
  }

  function SettleAll(items: seq<Json>): seq<Json>
    decreases items
  {
    if items == [] then [] else [Settle(items[0])] + SettleAll(items[1..])
  }

  function SettleMembers(ms: seq<Member>): seq<Member>
    decreases ms
  {
    if ms == [] then []
    else (if ms[0].value.Undefined? then [] else [Member(ms[0].key, Settle(ms[0].value))]) + SettleMembers(ms[1..])
  }

  ghost predicate AllValues(items: seq<Json>) {
    forall i | 0 <= i < |items| :: Value(items[i])
  }

  ghost predicate AllMemberValues(ms: seq<Member>) {
    forall i | 0 <= i < |ms| :: Value(ms[i].value)
  }

  /** A settled value prints the same, is one JSON can carry, and is no different if it was one already. */
  lemma {:induction false} SettledPrintsAlike(j: Json)
    requires Value(j)
    ensures Plain(Settle(j)) && Canonicalise(Settle(j)) == Canonicalise(j)
    ensures Plain(j) ==> Settle(j) == j
    decreases j, 0
  {
    match j
    case Arr(items) =>
      SettledItemsPrintAlike(items);
    case Obj(ms) =>
      SettledMembersPrintAlike(ms);
    case _ =>
  }

  lemma {:induction false} SettledItemsPrintAlike(items: seq<Json>)
    requires AllValues(items)
    ensures Plain(Arr(SettleAll(items))) && CanonicaliseAll(SettleAll(items)) == CanonicaliseAll(items)
    ensures Plain(Arr(items)) ==> SettleAll(items) == items
    decreases items, 0
  {
    if items != [] {
      SettledPrintsAlike(items[0]);
      SettledItemsPrintAlike(items[1..]);
      var first, rest := Settle(items[0]), SettleAll(items[1..]);
      assert ([first] + rest)[1..] == rest;
      assert items == [items[0]] + items[1..];
      assert Plain(Arr(items)) ==> Plain(items[0]) && Plain(Arr(items[1..]));
    }
  }

  lemma EntriesOfOneMore(m: Member, rest: seq<Member>)
    ensures Entries([m] + rest) == (if m.value.Undefined? then [] else [EntryOf(m)]) + Entries(rest)
  {
    assert ([m] + rest)[1..] == rest;
  }

  lemma {:induction false} SettledMembersPrintAlike(ms: seq<Member>)
    requires UniqueKeys(ms) && AllMemberValues(ms)
    ensures Plain(Obj(SettleMembers(ms))) && Entries(SettleMembers(ms)) == Entries(ms)
    ensures Plain(Obj(ms)) ==> SettleMembers(ms) == ms
    decreases ms, 0
  {
    if ms != [] {
      SettledMembersPrintAlike(ms[1..]);
      PlainMembers(ms);
      if ms[0].value.Undefined? {
        assert SettleMembers(ms) == SettleMembers(ms[1..]) && Entries(ms) == Entries(ms[1..]);
      } else {
        SettledPrintsAlike(ms[0].value);
        SettledKeys(ms[1..]);
        OneMoreSettled(ms, Member(ms[0].key, Settle(ms[0].value)), SettleMembers(ms[1..]));
      }
    }
  }

  lemma {:induction false} PlainMembers(ms: seq<Member>)
    requires ms != []
    ensures ms == [ms[0]] + ms[1..]
    ensures Plain(Obj(ms)) ==> Plain(ms[0].value) && Plain(Obj(ms[1..]))
  {
  }

  lemma {:induction false} OneMoreSettled(ms: seq<Member>, m: Member, rest: seq<Member>)
    requires ms != [] && UniqueKeys(ms) && !ms[0].value.Undefined?
    requires m.key == ms[0].key && Plain(m.value) && Canonicalise(m.value) == Canonicalise(ms[0].value)
    requires Plain(Obj(rest)) && Entries(rest) == Entries(ms[1..])
    requires forall k | 0 <= k < |rest| :: HasKey(ms[1..], rest[k].key)
    ensures Plain(Obj([m] + rest)) && Entries([m] + rest) == Entries(ms)
  {
    OneMorePlainMember(ms, m, rest);
    EntriesOfOneMore(m, rest);
    assert EntryOf(m) == EntryOf(ms[0]);
  }

  lemma {:induction false} SettledKeys(ms: seq<Member>)
    ensures forall k | 0 <= k < |SettleMembers(ms)| :: HasKey(ms, SettleMembers(ms)[k].key)
  {
    if ms != [] {
      SettledKeys(ms[1..]);
      assert HasKey(ms, ms[0].key);
      forall key | HasKey(ms[1..], key)
        ensures HasKey(ms, key)
      {
        var i :| 0 <= i < |ms[1..]| && ms[1..][i].key == key;
        assert ms[i + 1].key == key;
      }
    }
  }

  lemma {:induction false} OneMorePlainMember(ms: seq<Member>, m: Member, rest: seq<Member>)
    requires ms != [] && UniqueKeys(ms) && m.key == ms[0].key && Plain(m.value) && Plain(Obj(rest))
    requires forall k | 0 <= k < |rest| :: HasKey(ms[1..], rest[k].key)
    ensures Plain(Obj([m] + rest))
  {
    forall k | 0 <= k < |rest|
      ensures rest[k].key != m.key
    {
      assert HasKey(ms[1..], rest[k].key);
      var i :| 0 <= i < |ms[1..]| && ms[1..][i].key == rest[k].key;
      assert ms[i + 1].key == rest[k].key;
    }
  }

  /** For every body: the same fingerprint exactly when JSON makes the same value of both, up to member order. */
  lemma SameFingerprintIffSameBody(a: Json, b: Json)
    requires Value(a) && Value(b)
    ensures Canonicalise(a) == Canonicalise(b) <==> Same(Settle(a), Settle(b))
  {
    SettledPrintsAlike(a);
    SettledPrintsAlike(b);
    SameTextIffSameValue(Settle(a), Settle(b));
  }

  /** `b` is `a` with the members of its objects put in some other order, at any depth. */
  ghost predicate Reordered(a: Json, b: Json)
    decreases a
  {
    match (a, b)
    case (Arr(x), Arr(y)) => |x| == |y| && forall i | 0 <= i < |x| :: Reordered(x[i], y[i])
    case (Obj(ms), Obj(ns)) =>
      exists mid: seq<Member> | |mid| == |ms| ::
        multiset(mid) == multiset(ns) && ReorderedInside(ms, mid)
    case _ => a == b
  }

  ghost predicate ReorderedInside(ms: seq<Member>, mid: seq<Member>)
    requires |mid| == |ms|
    decreases ms
  {
    forall i | 0 <= i < |ms| :: mid[i].key == ms[i].key && Reordered(ms[i].value, mid[i].value)
  }

  lemma {:induction false} ReorderedIsSame(a: Json, b: Json)
    requires Reordered(a, b)
    ensures Same(a, b)
    decreases a
  {
    match (a, b)
    case (Arr(x), Arr(y)) =>
      forall i | 0 <= i < |x|
        ensures Same(x[i], y[i])
      {
        ReorderedIsSame(x[i], y[i]);
      }
    case (Obj(ms), Obj(ns)) =>
      var mid: seq<Member> :| |mid| == |ms| && multiset(mid) == multiset(ns) && ReorderedInside(ms, mid);
      forall i | 0 <= i < |ms|
        ensures HasSame(ms[i], ns)
      {
        ReorderedIsSame(ms[i].value, mid[i].value);
        var k := IndexIn(mid, ns, i);
        assert ns[k] == mid[i];
      }
      forall k | 0 <= k < |ns|
        ensures HasKey(ms, ns[k].key)
      {
        var i := IndexIn(ns, mid, k);
        assert ms[i].key == ns[k].key;
      }
    case _ =>
  }

  lemma IndexIn(s: seq<Member>, t: seq<Member>, i: nat) returns (k: nat)
    requires i < |s| && multiset(s) == multiset(t)
    ensures k < |t| && t[k] == s[i]
  {
    assert s[i] in multiset(t);
    k :| 0 <= k < |t| && t[k] == s[i];
  }

  /** A retry whose members come in another order, at any depth, has the same fingerprint. */
  lemma ReorderedRetryMatches(a: Json, b: Json)
    requires Plain(a) && Plain(b) && Reordered(a, b)
    ensures Canonicalise(a) == Canonicalise(b)
  {
    ReorderedIsSame(a, b);
    SameTextIffSameValue(a, b);
  }

  /** A number too large to be finite has the fingerprint of null, though JSON text tells the two apart. */
  lemma OverflowPrintsAsNull(key: Units)
    ensures var big, nil := Obj([Member(key, Num(PositiveInfinity))]), Obj([Member(key, Null)]);
            Value(big) && Value(nil) && big != nil && Canonicalise(big) == Canonicalise(nil)
  {
    var big, nil := [Member(key, Num(PositiveInfinity))], [Member(key, Null)];
    assert big[1..] == [] && nil[1..] == [];
    assert Entries(big) == [Entry(key, NULL_TEXT)] == Entries(nil);
  }

  // ---- The printed text is well-formed UTF-16, so encoding it for the hash loses nothing ----------

  /** Every surrogate is one of a pair. */
  ghost predicate WellFormed(t: Units)
    decreases |t|
  {
    t == []
    || (!IsHigh(t[0]) && !IsLow(t[0]) && WellFormed(t[1..]))
    || (|t| > 1 && IsHigh(t[0]) && IsLow(t[1]) && WellFormed(t[2..]))
  }

  lemma {:induction false} WellFormedJoins(a: Units, b: Units)
    requires WellFormed(a) && WellFormed(b)
    ensures WellFormed(a + b)
    decreases |a|
  {
    if a == [] {
      assert a + b == b;
    } else if !IsHigh(a[0]) && !IsLow(a[0]) {
      WellFormedJoins(a[1..], b);
      assert (a + b)[1..] == a[1..] + b;
    } else {
      WellFormedJoins(a[2..], b);
      assert (a + b)[2..] == a[2..] + b;
    }
  }

  lemma {:induction false} NoSurrogatesWellFormed(t: Units)
    requires forall k | 0 <= k < |t| :: !IsHigh(t[k]) && !IsLow(t[k])
    ensures WellFormed(t)
    decreases |t|
  {
    if t != [] {
      NoSurrogatesWellFormed(t[1..]);
    }
  }

  lemma {:induction false} EscapeIsWellFormed(s: Units)
    ensures WellFormed(Escape(s))
    decreases |s|
  {
    if s != [] {
      if |s| > 1 && IsHigh(s[0]) && IsLow(s[1]) {
        EscapeIsWellFormed(s[2..]);
        assert ([s[0], s[1]] + Escape(s[2..]))[2..] == Escape(s[2..]);
      } else {
        EscapeIsWellFormed(s[1..]);
        FirstChunkIsWellFormed(s[0]);
        if ShortEscape(s[0]).Some? {
          WellFormedJoins([BACKSLASH, ShortEscape(s[0]).value], Escape(s[1..]));
        } else if s[0] < 0x20 || IsHigh(s[0]) || IsLow(s[0]) {
          WellFormedJoins(HexEscape(s[0]), Escape(s[1..]));
        } else {
          WellFormedJoins([s[0]], Escape(s[1..]));
        }
      }
    }
  }

  lemma FirstChunkIsWellFormed(u: Unit)
    ensures WellFormed(HexEscape(u))
    ensures ShortEscape(u).Some? ==> WellFormed([BACKSLASH, ShortEscape(u).value])
    ensures !IsHigh(u) && !IsLow(u) ==> WellFormed([u])
  {
    FourDigits(u);
    NoSurrogatesWellFormed(HexEscape(u));
    if ShortEscape(u).Some? {
      NoSurrogatesWellFormed([BACKSLASH, ShortEscape(u).value]);
    }
    if !IsHigh(u) && !IsLow(u) {
      NoSurrogatesWellFormed([u]);
    }
  }

  lemma {:induction false} JoinIsWellFormed(xs: seq<Units>)
    requires forall i | 0 <= i < |xs| :: WellFormed(xs[i])
    ensures WellFormed(JoinTexts(xs))
  {
    NoSurrogatesWellFormed([COMMA]);
    if |xs| == 0 {
      NoSurrogatesWellFormed([]);
    } else if |xs| > 1 {
      JoinIsWellFormed(xs[1..]);
      WellFormedJoins(xs[0], [COMMA]);
      WellFormedJoins(xs[0] + [COMMA], JoinTexts(xs[1..]));
    }
  }

  lemma WrappedIsWellFormed(open: Unit, t: Units, close: Unit)
    requires WellFormed(t) && !IsHigh(open) && !IsLow(open) && !IsHigh(close) && !IsLow(close)
    ensures WellFormed([open] + t + [close])
  {
    NoSurrogatesWellFormed([open]);
    NoSurrogatesWellFormed([close]);
    WellFormedJoins([open], t);
    WellFormedJoins([open] + t, [close]);
  }

  lemma QuoteIsWellFormed(s: Units)
    ensures WellFormed(Quote(s))
  {
    EscapeIsWellFormed(s);
    WrappedIsWellFormed(QUOTE, Escape(s), QUOTE);
  }

  lemma EntryTextIsWellFormed(e: Entry)
    requires WellFormed(e.text)
    ensures WellFormed(EntryText(e))
  {
    QuoteIsWellFormed(e.key);
    NoSurrogatesWellFormed([COLON]);
    WellFormedJoins(Quote(e.key), [COLON]);
    WellFormedJoins(Quote(e.key) + [COLON], e.text);
  }

  lemma {:induction false} CanonicalTextIsWellFormed(j: Json)
    requires Value(j)
    ensures WellFormed(Canonicalise(j))
    decreases j
  {
    match j
    case Str(s) =>
      QuoteIsWellFormed(s);
    case Arr(items) =>
      CanonicaliseAllIs(items);
      forall i | 0 <= i < |items|
        ensures WellFormed(CanonicaliseAll(items)[i])
      {
        CanonicalTextIsWellFormed(items[i]);
      }
      JoinIsWellFormed(CanonicaliseAll(items));
      WrappedIsWellFormed(OPEN_LIST, JoinTexts(CanonicaliseAll(items)), CLOSE_LIST);
    case Obj(ms) =>
      var es := Sort(Entries(ms));
      SortSelects(Entries(ms));
      EntriesAre(ms);
      forall k | 0 <= k < |es|
        ensures WellFormed(EntryTexts(es)[k])
      {
        assert es[k] in Entries(ms);
        var i :| 0 <= i < |ms| && es[k].text == Canonicalise(ms[i].value);
        CanonicalTextIsWellFormed(ms[i].value);
        EntryTextIsWellFormed(es[k]);
      }
      JoinIsWellFormed(EntryTexts(es));
      WrappedIsWellFormed(OPEN_OBJECT, JoinTexts(EntryTexts(es)), CLOSE_OBJECT);
    case _ =>
      NoSurrogatesWellFormed(Canonicalise(j));
  }
}
