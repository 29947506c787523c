/** Splitting and joining text at a separator. */
module Text {
  /** `text.split(sep)`: never empty, and the parts joined by `sep` are the text. */
  function Split(text: string, sep: char): (parts: seq<string>)
    ensures |parts| >= 1
  {
    if text == "" then [""]
    else
      var rest := Split(text[1..], sep);
      if text[0] == sep then [""] + rest else [[text[0]] + rest[0]] + rest[1..]
  }

  lemma SplitFirst(c: char, text: string, sep: char)
    ensures Split([c] + text, sep)
            == if c == sep then [""] + Split(text, sep) else [[c] + Split(text, sep)[0]] + Split(text, sep)[1..]
  {
    assert ([c] + text)[1..] == text;
  }

  lemma FirstReplaced<T>(x: T, a: seq<T>, b: seq<T>)
    requires a != []
    ensures [x] + (a + b)[1..] == [x] + a[1..] + b && (a + b)[0] == a[0]
    ensures [x] + (a + b) == [x] + a + b
  {
  }

  lemma {:induction false} SplitAtSeparator(a: string, b: string, sep: char)
    ensures Split(a + [sep] + b, sep) == Split(a, sep) + Split(b, sep)
  {
    if a == "" {
      assert a + [sep] + b == [sep] + b;
      SplitFirst(sep, b, sep);
    } else {
      var first, later := a[0], a[1..];
      assert a == [first] + later && a + [sep] + b == [first] + (later + [sep] + b);
      SplitAtSeparator(later, b, sep);
      SplitFirst(first, later, sep);
      SplitFirst(first, later + [sep] + b, sep);
      var rest, tail := Split(later, sep), Split(b, sep);
      FirstReplaced(if first == sep then "" else [first] + rest[0], rest, tail);
    }
  }

  lemma {:induction false} SplitWithoutSeparator(s: string, sep: char)
    requires sep !in s
    ensures Split(s, sep) == [s]
  {
    if s != "" {
      SplitWithoutSeparator(s[1..], sep);
      assert [s[0]] + s[1..] == s;
    }
  }

  lemma Associates<T>(a: seq<T>, b: seq<T>, c: seq<T>)
    ensures a + b + c == a + (b + c)
  {
  }

  function Join(parts: seq<string>, sep: string): string {
    if parts == [] then ""
    else if |parts| == 1 then parts[0]
    else parts[0] + sep + Join(parts[1..], sep)
  }

  /** `<` on strings: by code unit, a proper prefix first. */
  predicate Less(a: string, b: string) {
    b != "" && (a == "" || a[0] < b[0] || (a[0] == b[0] && Less(a[1..], b[1..])))
  }

  lemma {:induction false} LessIsIrreflexive(a: string)
    ensures !Less(a, a)
  {
    if a != "" {
      LessIsIrreflexive(a[1..]);
    }
  }

  lemma {:induction false} LessIsTransitive(a: string, b: string, c: string)
    requires Less(a, b) && Less(b, c)
    ensures Less(a, c)
  {
    if a != "" && a[0] == b[0] == c[0] {
      LessIsTransitive(a[1..], b[1..], c[1..]);
    }
  }

  lemma {:induction false} LessIsTotal(a: string, b: string)
    ensures a == b || Less(a, b) || Less(b, a)
  {
    if a != "" && b != "" && a[0] == b[0] {
      LessIsTotal(a[1..], b[1..]);
      assert a == [a[0]] + a[1..] && b == [b[0]] + b[1..];
    }
  }
}
