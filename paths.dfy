/** An optional value: `indexOf` and the regular-expression scanner return one. */
module Wrappers {
  datatype Option<T> = None | Some(value: T)
}

/**
 * POSIX path handling used by the compiler: a normalized absolute path is the
 * list of its segments ("/r/a/b.pug" is ["r", "a", "b.pug"]).  The functions
 * here stand for `path.relative`, `path.join`, `path.dirname`,
 * `path.basename` and the output-name rewrite `String.prototype.replace`.
 */
module Paths {
  import opened Wrappers

  type Path = seq<string>

  /** A segment list that `path.normalize` would leave alone. */
  predicate Normal(p: Path) {
    forall i :: 0 <= i < |p| ==> p[i] != "" && p[i] != "." && p[i] != ".." && '/' !in p[i]
  }

  /** Length of the longest common prefix of two paths. */
  function CommonPrefix(a: Path, b: Path): (n: nat)
    ensures n <= |a| && n <= |b|
    ensures a[..n] == b[..n]
    ensures n < |a| && n < |b| ==> a[n] != b[n]
  {
    if a == [] || b == [] || a[0] != b[0] then 0
    else
      var m := CommonPrefix(a[1..], b[1..]);
      assert a[..m + 1] == [a[0]] + a[1..][..m];
      assert b[..m + 1] == [b[0]] + b[1..][..m];
      1 + m
  }

  /** The segments of `path.relative(root, file)`: one ".." per segment of
      `root` past the common prefix, then the rest of `file`. */
  function Relative(root: Path, file: Path): seq<string> {
    var n := CommonPrefix(root, file);
    seq(|root| - n, _ => "..") + file[n..]
  }

  /** `path.relative(root, file).split(path.sep).length`: splitting the empty
      string still yields one piece, so the depth is never 0. */
  function Depth(root: Path, file: Path): (d: nat)
    ensures d >= 1
  {
    var rel := Relative(root, file);
    if rel == [] then 1 else |rel|
  }

  lemma {:induction false} CommonPrefixOfExtension(root: Path, rest: Path)
    ensures CommonPrefix(root, root + rest) == |root|
  {
    if root != [] {
      assert (root + rest)[1..] == root[1..] + rest;
      CommonPrefixOfExtension(root[1..], rest);
    }
  }

  /** A file found under `root` has as depth the number of its segments below `root`. */
  lemma {:induction false} DepthUnderRoot(root: Path, rest: Path)
    requires rest != []
    ensures Depth(root, root + rest) == |rest|
    ensures Relative(root, root + rest) == rest
  {
    CommonPrefixOfExtension(root, rest);
    assert (root + rest)[|root|..] == rest;
  }

  /** Position of the first '/' in `s`. */
  function FirstSlash(s: string): (i: nat)
    requires '/' in s
    ensures i < |s| && s[i] == '/' && '/' !in s[..i]
  {
    if s[0] == '/' then 0
    else
      var j := FirstSlash(s[1..]);
      assert s[..j + 1] == [s[0]] + s[1..][..j];
      j + 1
  }

  /** `s.split('/')`. */
  function Split(s: string): (parts: seq<string>)
    ensures |parts| >= 1
    ensures forall i :: 0 <= i < |parts| ==> '/' !in parts[i]
    decreases |s|
  {
    if '/' !in s then [s]
    else
      var i := FirstSlash(s);
      [s[..i]] + Split(s[i + 1..])
  }

  /** `parts.join('/')`. */
  function JoinWithSlash(parts: seq<string>): string
    requires |parts| >= 1
  {
    if |parts| == 1 then parts[0] else parts[0] + "/" + JoinWithSlash(parts[1..])
  }

  /** Splitting at '/' loses nothing: joining the pieces gives the text back. */
  lemma {:induction false} SplitJoin(s: string)
    ensures JoinWithSlash(Split(s)) == s
    decreases |s|
  {
    if '/' in s {
      var i := FirstSlash(s);
      var parts := Split(s);
      var rest := Split(s[i + 1..]);
      assert parts == [s[..i]] + rest;
      assert parts[1..] == rest;
      SplitJoin(s[i + 1..]);
      assert JoinWithSlash(parts) == s[..i] + "/" + JoinWithSlash(rest);
      assert s == s[..i] + "/" + s[i + 1..];
    }
  }

  /** Appends relative segments to a normalized directory the way
      `path.join` + `path.normalize` do: empty and "." segments vanish, ".."
      removes the last segment (and stays at "/" at the top). */
  function Resolve(dir: Path, parts: seq<string>): (p: Path)
    ensures Normal(dir) && (forall i :: 0 <= i < |parts| ==> '/' !in parts[i]) ==> Normal(p)
    decreases |parts|
  {
    if parts == [] then dir
    else
      var seg := parts[0];
      if seg == "" || seg == "." then Resolve(dir, parts[1..])
      else if seg == ".." then Resolve(if dir == [] then [] else dir[..|dir| - 1], parts[1..])
      else Resolve(dir + [seg], parts[1..])
  }

  /** `path.join(dir, rel)` for a normalized absolute `dir` and the raw text `rel`. */
  function Join(dir: Path, rel: string): (p: Path)
    ensures Normal(dir) ==> Normal(p)
  {
    Resolve(dir, Split(rel))
  }

  /** Plain segments are appended unchanged: joining never rewrites a
      relative path free of "", "." and "..". */
  lemma {:induction false} ResolvePlain(dir: Path, parts: seq<string>)
    requires Normal(parts)
    ensures Resolve(dir, parts) == dir + parts
    decreases |parts|
  {
    if parts != [] {
      ResolvePlain(dir + [parts[0]], parts[1..]);
      assert dir + [parts[0]] + parts[1..] == dir + parts;
    }
  }

  /** A leading ".." climbs to the directory's parent before the rest is appended. */
  lemma ResolveUp(dir: Path, parts: seq<string>)
    requires dir != [] && Normal(parts)
    ensures Resolve(dir, [".."] + parts) == dir[..|dir| - 1] + parts
  {
    assert ([".."] + parts)[1..] == parts;
    ResolvePlain(dir[..|dir| - 1], parts);
  }

  /** `path.dirname`. */
  function Dirname(p: Path): (d: Path)
    ensures |d| == if p == [] then 0 else |p| - 1
    ensures d == p[..|d|]
  {
    if p == [] then [] else p[..|p| - 1]
  }

  /** `path.basename`. */
  function Basename(p: Path): (b: string)
    ensures p != [] ==> p == Dirname(p) + [b]
  {
    if p == [] then "" else p[|p| - 1]
  }

  predicate OccursAt(s: string, pat: string, j: nat) {
    j + |pat| <= |s| && s[j..j + |pat|] == pat
  }

  /** `s.indexOf(pat)`, None for -1. */
  function IndexOf(s: string, pat: string, from: nat := 0): (r: Option<nat>)
    requires from <= |s|
    ensures r.Some? ==> from <= r.value && OccursAt(s, pat, r.value)
    ensures r.Some? ==> forall j :: from <= j < r.value ==> !OccursAt(s, pat, j)
    ensures r.None? ==> forall j :: from <= j <= |s| ==> !OccursAt(s, pat, j)
    decreases |s| - from
  {
    if OccursAt(s, pat, from) then Some(from)
    else if from == |s| then None
    else IndexOf(s, pat, from + 1)
  }

  /** `s.replace(pat, rep)` with a string pattern: only the first occurrence is replaced. */
  function ReplaceFirst(s: string, pat: string, rep: string): (r: string)
    ensures IndexOf(s, pat).None? ==> r == s
    ensures IndexOf(s, pat).Some? ==>
      var i := IndexOf(s, pat).value;
      r == s[..i] + rep + s[i + |pat|..] && s == s[..i] + pat + s[i + |pat|..]
  {
    match IndexOf(s, pat)
    case None => s
    case Some(i) => s[..i] + rep + s[i + |pat|..]
  }

  /** Name of the compiled module written for a template (index.js:222). */
  function OutputName(fileName: string): string {
    ReplaceFirst(fileName, ".pug", ".js")
  }

  /** `IndexOf` finds the first occurrence at or after `from`. */
  lemma {:induction false} IndexOfFirst(s: string, pat: string, from: nat, i: nat)
    requires from <= i <= |s| && OccursAt(s, pat, i)
    requires forall j :: from <= j < i ==> !OccursAt(s, pat, j)
    ensures IndexOf(s, pat, from) == Some(i)
    decreases i - from
  {
    if from < i {
      IndexOfFirst(s, pat, from + 1, i);
    }
  }

  /** No ".pug" of `stem + ".pug" + rest` starts inside `stem` when `stem`
      has none: one that ran past the end of `stem` would have to match the
      '.' at position |stem| against one of "pug". */
  lemma NoPugInStem(stem: string, rest: string, j: nat)
    requires forall i :: 0 <= i <= |stem| ==> !OccursAt(stem, ".pug", i)
    requires j < |stem|
    ensures !OccursAt(stem + ".pug" + rest, ".pug", j)
  {
    var s := stem + ".pug" + rest;
    if j + 4 <= |stem| {
      assert s[j..j + 4] == stem[j..j + 4];
      assert !OccursAt(stem, ".pug", j);
    } else {
      var k := |stem| - j;
      assert s[j..j + 4][k] == s[|stem|] == '.';
      assert ".pug"[k] != '.';
    }
  }

  /** Only the first ".pug" is rewritten: whatever follows it, later ".pug"s
      included, is kept as it is. */
  lemma OutputNameFirstOnly(stem: string, rest: string)
    requires IndexOf(stem, ".pug").None?
    ensures OutputName(stem + ".pug" + rest) == stem + ".js" + rest
  {
    var s := stem + ".pug" + rest;
    assert OccursAt(s, ".pug", |stem|) by {
      assert s[|stem|..|stem| + 4] == ".pug";
    }
    forall j | 0 <= j < |stem| ensures !OccursAt(s, ".pug", j) {
      NoPugInStem(stem, rest, j);
    }
    IndexOfFirst(s, ".pug", 0, |stem|);
    assert s[..|stem|] == stem;
    assert s[|stem| + 4..] == rest;
  }

  /** The usual case: a name ending in its only ".pug" gets ".js" in its place. */
  lemma OutputNameOfTemplate(stem: string)
    requires IndexOf(stem, ".pug").None?
    ensures OutputName(stem + ".pug") == stem + ".js"
  {
    OutputNameFirstOnly(stem, "");
    assert stem + ".pug" + "" == stem + ".pug";
    assert stem + ".js" + "" == stem + ".js";
  }

  /** A name without ".pug" is kept as it is. */
  lemma OutputNameWithoutExtension(name: string)
    requires IndexOf(name, ".pug").None?
    ensures OutputName(name) == name
  {
  }
}
