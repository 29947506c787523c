/**
 * Materialised-path helpers: a path is ".<root>.<...>.<self>." with leading and
 * trailing dots, and every question about the tree is asked of the text.
 */
module TreePath {
  import opened Options
  import opened Text

  const SEPARATOR: char := '.'

  predicate IsId(s: string) {
    |s| > 0 && SEPARATOR !in s
  }

  type Id = s: string | IsId(s) witness "a"

  /** `parts.filter(Boolean)` on strings. */
  function NonEmpty(parts: seq<string>): seq<string> {
    if parts == [] then []
    else if parts[0] == "" then NonEmpty(parts[1..])
    else [parts[0]] + NonEmpty(parts[1..])
  }

  function Parts(path: string): seq<string> {
    NonEmpty(Split(path, SEPARATOR))
  }

  /** `buildPath`: a null or empty parent path makes a root. */
  function BuildPath(parentPath: Option<string>, self: Id): string {
    if parentPath.None? || parentPath.value == "" then [SEPARATOR] + self + [SEPARATOR]
    else parentPath.value + self + [SEPARATOR]
  }

  function DepthOf(path: string): nat {
    var n := |Parts(path)|;
    if n == 0 then 0 else n - 1
  }

  function RewritePath(path: string, oldAncestor: string, newAncestor: string): string {
    if !(oldAncestor <= path) then path else newAncestor + path[|oldAncestor|..]
  }

  predicate WouldCreateCycle(nodePath: string, targetPath: string) {
    nodePath <= targetPath
  }

  // ---- Parts --------------------------------------------------------------

  lemma {:induction false} NonEmptyConcat(a: seq<string>, b: seq<string>)
    ensures NonEmpty(a + b) == NonEmpty(a) + NonEmpty(b)
  {
    if a == [] {
      assert a + b == b;
    } else {
      NonEmptyConcat(a[1..], b);
      assert (a + b)[1..] == a[1..] + b;
      assert [a[0]] + (NonEmpty(a[1..]) + NonEmpty(b)) == [a[0]] + NonEmpty(a[1..]) + NonEmpty(b);
    }
  }

  /** Appending one id to a path appends exactly one part. */
  lemma PartsOfChild(path: string, id: Id)
    requires path != "" && path[|path| - 1] == SEPARATOR
    ensures Parts(path + id + [SEPARATOR]) == Parts(path) + [id]
  {
    var name: string := id;
    var stem := path[..|path| - 1];
    assert path == stem + [SEPARATOR] + "";
    SplitAtSeparator(stem, "", SEPARATOR);
    assert path + id + [SEPARATOR] == stem + [SEPARATOR] + (id + [SEPARATOR] + "");
    SplitAtSeparator(stem, id + [SEPARATOR] + "", SEPARATOR);
    SplitAtSeparator(id, "", SEPARATOR);
    SplitWithoutSeparator(id, SEPARATOR);
    NonEmptyConcat(Split(stem, SEPARATOR), [""]);
    NonEmptyConcat(Split(stem, SEPARATOR), [name] + [""]);
    assert NonEmpty([name, ""]) == [id] + NonEmpty([""]);
  }

  lemma PartsOfRoot(id: Id)
    ensures Parts([SEPARATOR] + id + [SEPARATOR]) == [id]
  {
    var name: string := id;
    SplitAtSeparator("", id + [SEPARATOR], SEPARATOR);
    assert [SEPARATOR] + id + [SEPARATOR] == "" + [SEPARATOR] + (id + [SEPARATOR]);
    assert id + [SEPARATOR] == id + [SEPARATOR] + "";
    SplitAtSeparator(id, "", SEPARATOR);
    SplitWithoutSeparator(id, SEPARATOR);
    assert Split([SEPARATOR] + id + [SEPARATOR], SEPARATOR) == [""] + [name] + [""];
    NonEmptyConcat([""] + [name], [""]);
    NonEmptyConcat([""], [name]);
  }
}
