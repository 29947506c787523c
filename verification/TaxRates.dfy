/**
 * The tax-rate timeline: a rate is never edited, a new one closes the open one the day before
 * it starts. Dates are day numbers, rates are hundredths of a percent.
 */
module TaxRates {
  import opened Options

  datatype Rate = Rate(code: string, gst: int, cess: int, from: int, until: Option<int>)

  datatype NewRate = NewRate(code: string, gst: int, cess: int, from: int)

  /** `UniqueViolation` is the database refusing a transaction. */
  datatype Outcome = Created | AlreadyExists | Conflict | UniqueViolation

  predicate Open(r: Rate, code: string) {
    r.code == code && r.until.None?
  }

  /** `findFirst` of the open-ended row for a code. */
  function OpenIndex(t: seq<Rate>, code: string): (i: Option<nat>)
    ensures i.Some? ==> i.value < |t| && Open(t[i.value], code)
  {
    if t == [] then None
    else
      var n := |t| - 1;
      var before := OpenIndex(t[..n], code);
      if before.Some? then before else if Open(t[n], code) then Some(n) else None
  }

  predicate HasStart(t: seq<Rate>, code: string, from: int) {
    exists i | 0 <= i < |t| :: t[i].code == code && t[i].from == from
  }

  function Closed(r: Rate, newFrom: int): Rate {
    r.(until := Some(newFrom - 1))
  }

  function Create(t: seq<Rate>, dto: NewRate): (seq<Rate>, Outcome) {
    var current := OpenIndex(t, dto.code);
    var row := Rate(dto.code, dto.gst, dto.cess, dto.from, None);
    if HasStart(t, dto.code, dto.from) then (t, AlreadyExists)
    else if current.None? then (t + [row], Created)
    else if t[current.value].from >= dto.from then (t, Conflict)
    else (t[current.value := Closed(t[current.value], dto.from)] + [row], Created)
  }

  // ---- Timelines --------------------------------------------------------------

  /** The rows of one code, in the order they were created. */
  function OfCode(t: seq<Rate>, code: string): seq<Rate> {
    if t == [] then []
    else
      var n := |t| - 1;
      OfCode(t[..n], code) + if t[n].code == code then [t[n]] else []
  }

  /** Strictly later starts, each range ending the day before the next, the last one open. */
  ghost predicate Timeline(s: seq<Rate>) {
    && (forall i | 0 <= i < |s| - 1 :: s[i].from < s[i + 1].from && s[i].until == Some(s[i + 1].from - 1))
    && (s != [] ==> s[|s| - 1].until == None)
  }

  ghost predicate ValidTable(t: seq<Rate>) {
    forall code: string :: Timeline(OfCode(t, code))
  }

  lemma OfCodeAppend(t: seq<Rate>, r: Rate, code: string)
    ensures OfCode(t + [r], code) == OfCode(t, code) + if r.code == code then [r] else []
  {
    assert (t + [r])[..|t|] == t;
  }

  lemma {:induction false} NoneOpen(t: seq<Rate>, code: string)
    requires forall r | r in OfCode(t, code) :: r.until.Some?
    ensures OpenIndex(t, code).None?
  {
    if t != [] {
      NoneOpen(t[..|t| - 1], code);
      if t[|t| - 1].code == code {
        assert t[|t| - 1] in OfCode(t, code);
      }
    }
  }

  /** In a valid timeline the open row the query finds is the last one; replacing it replaces the last one. */
  lemma {:induction false} OpenRowIsLast(t: seq<Rate>, code: string, r: Rate)
    requires Timeline(OfCode(t, code)) && r.code == code
    ensures OfCode(t, code) == [] <==> OpenIndex(t, code).None?
    ensures var s := OfCode(t, code);
            s != [] ==> && t[OpenIndex(t, code).value] == s[|s| - 1]
                        && OfCode(t[OpenIndex(t, code).value := r], code) == s[|s| - 1 := r]
  {
    if t != [] {
      var n := |t| - 1;
      var before := OfCode(t[..n], code);
      if t[n].code == code {
        var s := OfCode(t, code);
        assert s == before + [t[n]];
        EarlierRowsClosed(before, t[n]);
        NoneOpen(t[..n], code);
        assert t[n := r][..n] == t[..n];
        assert before + [r] == s[|s| - 1 := r];
      } else {
        assert OfCode(t, code) == before;
        OpenRowIsLast(t[..n], code, r);
        if before != [] {
          var i := OpenIndex(t[..n], code).value;
          assert t[i := r][..n] == t[..n][i := r];
        }
      }
    }
  }

  lemma EarlierRowsClosed(before: seq<Rate>, last: Rate)
    requires Timeline(before + [last])
    ensures forall x | x in before :: x.until.Some?
    ensures last.until.None?
  {
    var s := before + [last];
    assert s[|s| - 1] == last;
    forall x | x in before
      ensures x.until.Some?
    {
      var i :| 0 <= i < |before| && before[i] == x;
      assert s[i] == x && s[i].until == Some(s[i + 1].from - 1);
    }
  }

  lemma {:induction false} OtherCodesUntouched(t: seq<Rate>, i: nat, r: Rate, code: string)
    requires i < |t| && t[i].code != code && r.code != code
    ensures OfCode(t[i := r], code) == OfCode(t, code)
  {
    var n := |t| - 1;
    if i == n {
      assert t[i := r][..n] == t[..n];
    } else {
      OtherCodesUntouched(t[..n], i, r, code);
      assert t[i := r][..n] == t[..n][i := r];
    }
  }

  /** What a successful call does to each code's rows. */
  lemma CreatedTimeline(t: seq<Rate>, dto: NewRate, code: string)
    requires Timeline(OfCode(t, dto.code)) && Create(t, dto).1 == Created
    ensures var s := OfCode(t, code);
            var row := Rate(dto.code, dto.gst, dto.cess, dto.from, None);
            OfCode(Create(t, dto).0, code)
            == if code != dto.code then s
               else if s == [] then [row]
               else Superseded(s, row)
    ensures var s := OfCode(t, dto.code);
            s != [] ==> s[|s| - 1].from < dto.from
  {
    var current := OpenIndex(t, dto.code);
    var row := Rate(dto.code, dto.gst, dto.cess, dto.from, None);
    OpenRowIsLast(t, dto.code, row);
    if current.None? {
      OfCodeAppend(t, row, code);
    } else {
      var closed := Closed(t[current.value], dto.from);
      OpenRowIsLast(t, dto.code, closed);
      if code != dto.code {
        OtherCodesUntouched(t, current.value, closed, code);
      }
      OfCodeAppend(t[current.value := closed], row, code);
    }
  }

  function Superseded(s: seq<Rate>, row: Rate): seq<Rate>
    requires s != []
  {
    s[|s| - 1 := Closed(s[|s| - 1], row.from)] + [row]
  }

  lemma SupersededIsTimeline(s: seq<Rate>, row: Rate)
    requires Timeline(s) && s != [] && s[|s| - 1].from < row.from && row.until.None?
    ensures Timeline(Superseded(s, row))
  {
  }

  lemma CreateKeepsTimelines(t: seq<Rate>, dto: NewRate)
    requires ValidTable(t)
    ensures ValidTable(Create(t, dto).0)
  {
    if Create(t, dto).1 == Created {
      forall code: string
        ensures Timeline(OfCode(Create(t, dto).0, code))
      {
        assert Timeline(OfCode(t, code)) && Timeline(OfCode(t, dto.code));
        CreatedTimeline(t, dto, code);
        if code == dto.code && OfCode(t, code) != [] {
          SupersededIsTimeline(OfCode(t, code), Rate(dto.code, dto.gst, dto.cess, dto.from, None));
        }
      }
    }
  }

  lemma {:induction false} InOfCode(t: seq<Rate>, i: nat)
    requires i < |t|
    ensures t[i] in OfCode(t, t[i].code)
  {
    var n := |t| - 1;
    if i < n {
      InOfCode(t[..n], i);
      assert t[..n][i] == t[i];
    }
  }

  lemma {:induction false} OfCodeIsIn(t: seq<Rate>, r: Rate, code: string)
    requires r in OfCode(t, code)
    ensures r in t && r.code == code
  {
    var n := |t| - 1;
    assert t == t[..n] + [t[n]];
    if r in OfCode(t[..n], code) {
      OfCodeIsIn(t[..n], r, code);
    }
  }

  /** The open row of a code starts last of all its rows; with no row open there is none. */
  lemma OpenRowStartsLast(t: seq<Rate>, code: string, i: nat)
    requires Timeline(OfCode(t, code)) && i < |t| && t[i].code == code
    ensures OpenIndex(t, code).Some? && t[i].from <= t[OpenIndex(t, code).value].from
  {
    InOfCode(t, i);
    OpenRowIsLast(t, code, t[i]);
    LastStartsLast(OfCode(t, code), t[i]);
  }

  lemma LastStartsLast(s: seq<Rate>, r: Rate)
    requires Timeline(s) && r in s
    ensures r.from <= s[|s| - 1].from
  {
    var k :| 0 <= k < |s| && s[k] == r;
    StartsIncrease(s, k, |s| - 1);
  }

  /**
   * A rate is added exactly when it starts after every rate of its code so far. One that starts with another
   * is a duplicate, one that starts before another a conflict, and both change nothing.
   */
  lemma CreateAcceptsLaterStarts(t: seq<Rate>, dto: NewRate)
    requires ValidTable(t)
    ensures var (t', outcome) := Create(t, dto);
            && (outcome == Created <==> forall i | 0 <= i < |t| && t[i].code == dto.code :: t[i].from < dto.from)
            && (outcome == AlreadyExists <==> exists i | 0 <= i < |t| :: t[i].code == dto.code && t[i].from == dto.from)
            && outcome in {Created, AlreadyExists, Conflict} && (outcome != Created ==> t' == t)
  {
    assert Timeline(OfCode(t, dto.code));
    forall i | 0 <= i < |t| && t[i].code == dto.code
      ensures OpenIndex(t, dto.code).Some? && t[i].from <= t[OpenIndex(t, dto.code).value].from
    {
      OpenRowStartsLast(t, dto.code, i);
    }
  }

  function Run(t: seq<Rate>, calls: seq<NewRate>): seq<Rate>
    decreases |calls|
  {
    if calls == [] then t else Run(Create(t, calls[0]).0, calls[1..])
  }

  /** After any sequence of calls every code has a gapless, non-overlapping timeline with one open end. */
  lemma {:induction false} RunKeepsTimelines(t: seq<Rate>, calls: seq<NewRate>)
    requires ValidTable(t)
    ensures ValidTable(Run(t, calls))
    decreases |calls|
  {
    if calls != [] {
      CreateKeepsTimelines(t, calls[0]);
      RunKeepsTimelines(Create(t, calls[0]).0, calls[1..]);
    }
  }

  // ---- Looking a date up --------------------------------------------------------

  /** The `effectiveOn` filter. */
  predicate Covers(r: Rate, on: int) {
    r.from <= on && (r.until.None? || r.until.value >= on)
  }

  function Matching(s: seq<Rate>, on: int): seq<Rate> {
    if s == [] then []
    else (if Covers(s[0], on) then [s[0]] else []) + Matching(s[1..], on)
  }

  function Lookup(t: seq<Rate>, code: string, on: int): seq<Rate> {
    Matching(OfCode(t, code), on)
  }

  /** Row `i` has started by `on`, the next one has not, and the lookup returns row `i` alone. */
  ghost predicate Decides(s: seq<Rate>, on: int, i: nat) {
    && i < |s|
    && s[i].from <= on && (i + 1 < |s| ==> on < s[i + 1].from)
    && Matching(s, on) == [s[i]]
  }

  /** A date resolves to the last row that has started, and to nothing before the first start. */
  lemma {:induction false} MatchingIsUnique(s: seq<Rate>, on: int)
    requires Timeline(s) && s != []
    ensures on < s[0].from ==> Matching(s, on) == []
    ensures on >= s[0].from ==> exists i: nat :: Decides(s, on, i)
  {
    var rest := s[1..];
    assert Matching(s, on) == (if Covers(s[0], on) then [s[0]] else []) + Matching(rest, on);
    if rest == [] {
      if on >= s[0].from {
        assert Decides(s, on, 0);
      }
    } else {
      assert rest[0] == s[1] && s[0].until == Some(s[1].from - 1);
      MatchingIsUnique(rest, on);
      if on >= s[1].from {
        var i: nat :| Decides(rest, on, i);
        assert Decides(s, on, i + 1);
      } else if on >= s[0].from {
        assert Decides(s, on, 0);
      }
    }
  }

  lemma AtMostOne(s: seq<Rate>, on: int)
    requires Timeline(s)
    ensures |Matching(s, on)| <= 1
  {
    if s != [] {
      MatchingIsUnique(s, on);
    }
  }

  /** The rate two rows charge, whatever their ends. */
  predicate SameRate(a: Rate, b: Rate) {
    a.(until := None) == b.(until := None)
  }

  lemma {:induction false} MatchingSplit(a: seq<Rate>, b: seq<Rate>, on: int)
    ensures Matching(a + b, on) == Matching(a, on) + Matching(b, on)
  {
    if a == [] {
      assert a + b == b;
    } else {
      MatchingSplit(a[1..], b, on);
      assert (a + b)[1..] == a[1..] + b;
      var head := if Covers(a[0], on) then [a[0]] else [];
      assert head + (Matching(a[1..], on) + Matching(b, on)) == head + Matching(a[1..], on) + Matching(b, on);
    }
  }

  /** Closing the last row and adding a later one changes no date before the new start. */
  lemma SupersedingKeepsPast(s: seq<Rate>, row: Rate, on: int)
    requires Timeline(s) && s != [] && s[|s| - 1].from < row.from && row.until.None? && on < row.from
    ensures |Matching(Superseded(s, row), on)| == |Matching(s, on)| <= 1
    ensures Matching(s, on) != [] ==> SameRate(Matching(s, on)[0], Matching(Superseded(s, row), on)[0])
  {
    var n := |s| - 1;
    var closed := Closed(s[n], row.from);
    assert s == s[..n] + [s[n]];
    assert Superseded(s, row) == s[..n] + [closed] + [row];
    MatchingSplit(s[..n], [s[n]], on);
    MatchingSplit(s[..n], [closed], on);
    MatchingSplit(s[..n] + [closed], [row], on);
    AtMostOne(s, on);
    assert Matching([row], on) == [];
    assert Matching([s[n]], on) == if Covers(s[n], on) then [s[n]] else [];
    assert Matching([closed], on) == if Covers(s[n], on) then [closed] else [];
  }

  /**
   * A new rate from date `f` leaves what every earlier date resolves to, for every code, and
   * decides every date from `f` on for its own code.
   */
  lemma PastIsNeverChanged(t: seq<Rate>, dto: NewRate, code: string, on: int)
    requires ValidTable(t) && Create(t, dto).1 == Created
    ensures on < dto.from || code != dto.code ==>
              && |Lookup(Create(t, dto).0, code, on)| == |Lookup(t, code, on)| <= 1
              && (Lookup(t, code, on) != [] ==> SameRate(Lookup(t, code, on)[0], Lookup(Create(t, dto).0, code, on)[0]))
    ensures on >= dto.from && code == dto.code ==>
              Lookup(Create(t, dto).0, code, on) == [Rate(dto.code, dto.gst, dto.cess, dto.from, None)]
  {
    assert Timeline(OfCode(t, code)) && Timeline(OfCode(t, dto.code));
    CreatedTimeline(t, dto, code);
    if code == dto.code {
      AddedRowDecidesFromItsStart(OfCode(t, code), Rate(dto.code, dto.gst, dto.cess, dto.from, None), on);
    } else {
      AtMostOne(OfCode(t, code), on);
    }
  }

  /** The same, seen in the rows of the one code. */
  lemma AddedRowDecidesFromItsStart(s: seq<Rate>, row: Rate, on: int)
    requires Timeline(s) && row.until.None? && (s != [] ==> s[|s| - 1].from < row.from)
    ensures var after := if s == [] then [row] else Superseded(s, row);
            && (on < row.from ==>
                  && |Matching(after, on)| == |Matching(s, on)| <= 1
                  && (Matching(s, on) != [] ==> SameRate(Matching(s, on)[0], Matching(after, on)[0])))
            && (on >= row.from ==> Matching(after, on) == [row])
  {
    if s == [] {
      assert Matching([row], on) == if Covers(row, on) then [row] else [];
    } else if on < row.from {
      SupersedingKeepsPast(s, row, on);
    } else {
      SupersededIsTimeline(s, row);
      LastStartedWins(s[|s| - 1 := Closed(s[|s| - 1], row.from)], row, on);
    }
  }

  lemma LastStartedWins(s: seq<Rate>, row: Rate, on: int)
    requires Timeline(s + [row]) && on >= row.from
    ensures Matching(s + [row], on) == [row]
  {
    var all := s + [row];
    StartsIncrease(all, 0, |s|);
    MatchingIsUnique(all, on);
    var i: nat :| Decides(all, on, i);
    if i < |s| {
      StartsIncrease(all, i + 1, |s|);
    }
  }

  lemma {:induction false} StartsIncrease(s: seq<Rate>, i: nat, j: nat)
    requires Timeline(s) && i <= j < |s|
    ensures s[i].from <= s[j].from
    decreases j - i
  {
    if i < j {
      StartsIncrease(s, i + 1, j);
    }
  }

  /** From an empty table, after any calls: every date from a code's first start on resolves to exactly one row. */
  lemma EveryDateResolvesOnce(calls: seq<NewRate>, code: string, on: int)
    ensures var s := OfCode(Run([], calls), code);
            |Lookup(Run([], calls), code, on)| == if s != [] && on >= s[0].from then 1 else 0
  {
    RunKeepsTimelines([], calls);
    var s := OfCode(Run([], calls), code);
    assert Timeline(s);
    if s != [] {
      MatchingIsUnique(s, on);
    }
  }
}
