/** The parts of Go's `path/filepath` package that name the output file,
    for a Unix system, whose only separator is `/`. */
module FilePath {
  import opened Options
  import opened Strings

  const Separator: char := '/'

  /** `filepath.Split`: the path up to and including its last separator,
      and the final element after it. */
  function Split(path: string): (r: (string, string))
    ensures r.0 + r.1 == path
    ensures Separator !in r.1
    ensures IsDir(r.0)
  {
    match LastIndexOf(path, Separator)
    case None => ("", path)
    case Some(i) =>
      assert path == path[..i + 1] + path[i + 1..];
      (path[..i + 1], path[i + 1..])
  }

  /** A directory part: empty, or ending in a separator. */
  predicate IsDir(dir: string)
  {
    dir == "" || dir[|dir| - 1] == Separator
  }

  /** A path has one way only of being a directory part followed by a final
      element without separators. */
  lemma SplitUnique(a: string, b: string, c: string, d: string)
    requires a + b == c + d
    requires IsDir(a) && IsDir(c)
    requires Separator !in b && Separator !in d
    ensures a == c && b == d
  {
    var path := a + b;
    assert forall j :: |a| <= j < |path| ==> path[j] == b[j - |a|];
    assert forall j :: |c| <= j < |path| ==> path[j] == d[j - |c|];
    assert a != "" ==> path[|a| - 1] == Separator;
    assert c != "" ==> path[|c| - 1] == Separator;
    assert |a| == |c|;
    assert a == path[..|a|] && c == path[..|c|];
  }

  /** A directory part and a final element put together split back into
      the same two parts. */
  lemma SplitJoined(dir: string, name: string)
    requires IsDir(dir)
    requires Separator !in name
    ensures Split(dir + name) == (dir, name)
  {
    var r := Split(dir + name);
    SplitUnique(r.0, r.1, dir, name);
  }

  /** The loop of `filepath.Ext`: scan back from position `i` until a
      separator; the text from the first dot met is the extension. The part
      after `i` is already known to hold neither a dot nor a separator. */
  function ExtScan(path: string, i: int): (e: string)
    requires -1 <= i < |path|
    requires '.' !in path[i + 1..] && Separator !in path[i + 1..]
    ensures HasSuffix(path, e)
    ensures e != "" ==> e[0] == '.' && '.' !in e[1..] && Separator !in e
    ensures e == "" ==> forall k :: 0 <= k < |path| && Separator !in path[k..] ==> path[k] != '.'
    decreases i + 1
  {
    if i < 0 then ""
    else if path[i] == Separator then
      assert forall k :: 0 <= k <= i ==> path[i] in path[k..];
      ""
    else if path[i] == '.' then
      assert path[i..][1..] == path[i + 1..];
      path[i..]
    else
      assert path[i..] == [path[i]] + path[i + 1..];
      ExtScan(path, i - 1)
  }

  /** `filepath.Ext`: the suffix of the final element starting at its last
      dot, or empty when the final element has no dot. */
  function Ext(path: string): (e: string)
    ensures HasSuffix(path, e)
    ensures e != "" ==> e[0] == '.' && '.' !in e[1..] && Separator !in e
    ensures e == "" ==> forall k :: 0 <= k < |path| && Separator !in path[k..] ==> path[k] != '.'
  {
    ExtScan(path, |path| - 1)
  }

  /** `filepath.Join` of a directory and a non-empty name, without the
      final path cleaning: the name alone under an empty directory, else
      the two joined by exactly one separator. */
  function Join(dir: string, name: string): (r: string)
    ensures Separator !in name ==>
      Split(r) == (if IsDir(dir) then dir else dir + [Separator], name)
  {
    var d := if dir == "" || dir[|dir| - 1] == Separator then dir else dir + [Separator];
    if Separator in name then d + name
    else
      SplitJoined(d, name);
      d + name
  }

  /** Scanning back from any position at or after the last dot of the
      final element stops at that dot. */
  lemma {:induction false} ExtScanStops(path: string, i: nat, j: int)
    requires i <= j < |path|
    requires path[i] == '.'
    requires '.' !in path[i + 1..] && Separator !in path[i..]
    ensures ExtScan(path, j) == path[i..]
    decreases j
  {
    assert path[j + 1..] == path[i + 1..][j - i..];
    if j > i {
      assert path[j] == path[i + 1..][j - i - 1];
      ExtScanStops(path, i, j - 1);
    }
  }

  /** The extension starts at the last dot when no separator follows it. */
  lemma ExtAtLastDot(path: string, i: nat)
    requires i < |path| && path[i] == '.'
    requires '.' !in path[i + 1..] && Separator !in path[i..]
    ensures Ext(path) == path[i..]
  {
    ExtScanStops(path, i, |path| - 1);
  }
}
