/** White space and words: what collapsing and trimming white space leaves unchanged. */
module Spacing {
  import Text

  /** The characters a JavaScript regular expression's `\s` matches. */
  predicate IsSpace(c: char) {
    var u := c as int;
    (9 <= u <= 13) || u == 32 || u == 160 || u == 0x1680 || (0x2000 <= u <= 0x200a)
    || u == 0x2028 || u == 0x2029 || u == 0x202f || u == 0x205f || u == 0x3000 || u == 0xfeff
  }

  /** ECMAScript's white space and line terminators, one by one. */
  lemma SpacesAreThese(c: char)
    ensures IsSpace(c) <==>
              c in {'\t', '\n', '\U{000B}', '\U{000C}', '\r', ' ', '\U{00A0}', '\U{1680}', '\U{2000}', '\U{2001}', '\U{2002}',
                    '\U{2003}', '\U{2004}', '\U{2005}', '\U{2006}', '\U{2007}', '\U{2008}', '\U{2009}', '\U{200A}',
                    '\U{2028}', '\U{2029}', '\U{202F}', '\U{205F}', '\U{3000}', '\U{FEFF}'}
  {
    if IsSpace(c) && 0x2000 <= c as int <= 0x200a {
      assert c == (c as int) as char;
    }
  }

  predicate IsWord(w: string) {
    w != "" && forall k | 0 <= k < |w| :: !IsSpace(w[k])
  }

  function Words(s: string): (ws: seq<string>)
    ensures s != "" && !IsSpace(s[0]) ==> ws != []
  {
    if s == "" then []
    else if IsSpace(s[0]) then Words(s[1..])
    else if |s| == 1 || IsSpace(s[1]) then [[s[0]]] + Words(s[1..])
    else [[s[0]] + Words(s[1..])[0]] + Words(s[1..])[1..]
  }

  /** `replace(/\s+/g, ' ')` */
  function Collapse(s: string): string {
    if s == "" then ""
    else if IsSpace(s[0]) then if |s| > 1 && IsSpace(s[1]) then Collapse(s[1..]) else " " + Collapse(s[1..])
    else [s[0]] + Collapse(s[1..])
  }

  function TrimStart(s: string): string {
    if s != "" && IsSpace(s[0]) then TrimStart(s[1..]) else s
  }

  function TrimEnd(s: string): string {
    if s != "" && IsSpace(s[|s| - 1]) then TrimEnd(s[..|s| - 1]) else s
  }

  function Normalised(s: string): string {
    TrimEnd(TrimStart(Collapse(s)))
  }

  lemma {:induction false} WordsOfWord(w: string)
    requires IsWord(w)
    ensures Words(w) == [w]
  {
    assert w == [w[0]] + w[1..];
    if |w| == 1 {
      assert w[1..] == "" && Words(w[1..]) == [];
      assert w == [w[0]];
    } else {
      assert w[1] == w[1..][0];
      WordsOfWord(w[1..]);
    }
  }

  function Prefixed(c: char, t: string): seq<string> {
    if IsSpace(c) then Words(t)
    else if t == "" || IsSpace(t[0]) then [[c]] + Words(t)
    else [[c] + Words(t)[0]] + Words(t)[1..]
  }

  lemma WordsOfPrefixed(c: char, t: string)
    ensures Words([c] + t) == Prefixed(c, t)
  {
    assert ([c] + t)[1..] == t;
  }

  lemma {:induction false} WordsAroundSpace(a: string, c: char, b: string)
    requires IsSpace(c)
    ensures Words(a + [c] + b) == Words(a) + Words(b)
  {
    if a == "" {
      assert a + [c] + b == [c] + b;
      WordsOfPrefixed(c, b);
    } else {
      var t := a[1..] + [c] + b;
      WordsAroundSpace(a[1..], c, b);
      assert a + [c] + b == [a[0]] + t;
      WordsOfPrefixed(a[0], t);
      if !IsSpace(a[0]) {
        if |a| > 1 && !IsSpace(a[1]) {
          Text.FirstReplaced([a[0]] + Words(a[1..])[0], Words(a[1..]), Words(b));
        } else {
          Text.Associates([[a[0]]], Words(a[1..]), Words(b));
        }
      }
    }
  }

  lemma {:induction false} CollapseKeepsWords(s: string)
    ensures Words(Collapse(s)) == Words(s)
    ensures s != "" ==> Collapse(s) != "" && (IsSpace(Collapse(s)[0]) <==> IsSpace(s[0]))
  {
    if s != "" {
      CollapseKeepsWords(s[1..]);
      var rest := Collapse(s[1..]);
      if IsSpace(s[0]) {
        assert (" " + rest)[1..] == rest;
      } else {
        assert ([s[0]] + rest)[1..] == rest;
      }
    }
  }

  lemma {:induction false} TrimEndKeepsWords(s: string)
    ensures Words(TrimEnd(s)) == Words(s)
  {
    if s != "" && IsSpace(s[|s| - 1]) {
      TrimEndKeepsWords(s[..|s| - 1]);
      WordsAroundSpace(s[..|s| - 1], s[|s| - 1], "");
      assert s == s[..|s| - 1] + [s[|s| - 1]] + "";
    }
  }

  lemma {:induction false} TrimStartKeepsWords(s: string)
    ensures Words(TrimStart(s)) == Words(s)
  {
    if s != "" && IsSpace(s[0]) {
      TrimStartKeepsWords(s[1..]);
    }
  }

  lemma NormalisedKeepsWords(s: string)
    ensures Words(Normalised(s)) == Words(s)
  {
    CollapseKeepsWords(s);
    TrimStartKeepsWords(Collapse(s));
    TrimEndKeepsWords(TrimStart(Collapse(s)));
  }

  function AllWords(parts: seq<string>): seq<string> {
    if parts == [] then [] else Words(parts[0]) + AllWords(parts[1..])
  }

  lemma {:induction false} WordsOfJoin(parts: seq<string>)
    ensures Words(Text.Join(parts, " ")) == AllWords(parts)
  {
    if |parts| == 1 {
      assert AllWords(parts[1..]) == [];
    } else if |parts| > 1 {
      WordsOfJoin(parts[1..]);
      WordsAroundSpace(parts[0], ' ', Text.Join(parts[1..], " "));
    }
  }
}
