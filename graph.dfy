/**
 * The dependency graph of `get_pug_files` and `parentize_includes`, as
 * values.  The JavaScript object `allPugFilesCollection` is an
 * insertion-ordered dictionary (`Dict`): assigning to a new key appends it,
 * assigning to a key already present replaces its record in place.  Its keys
 * are a file's own path (the root record of a depth-1 file) or the pair
 * "<included>:<including>" (an include record).
 */
module Graph {
  import opened Paths
  import Includes

  /** `{file, parent, isInclude}`. */
  datatype Record = Record(file: Path, parent: Path, isInclude: bool)

  datatype Key = SelfKey(path: Path) | EdgeKey(included: Path, including: Path)

  datatype Dict = Dict(keys: seq<Key>, store: map<Key, Record>)

  /** Keys listed once each, and exactly the keys of the store. */
  ghost predicate WellKeyed(d: Dict) {
    && (forall i, j :: 0 <= i < j < |d.keys| ==> d.keys[i] != d.keys[j])
    && (forall k :: k in d.store <==> k in d.keys)
  }

  function Empty(): (d: Dict)
    ensures WellKeyed(d)
  {
    Dict([], map[])
  }

  /** `Object.values`: the records in key insertion order. */
  function Values(d: Dict): (r: seq<Record>)
    requires WellKeyed(d)
    ensures |r| == |d.keys|
    ensures forall i :: 0 <= i < |r| ==> r[i] == d.store[d.keys[i]]
  {
    seq(|d.keys|, i requires 0 <= i < |d.keys| => d.store[d.keys[i]])
  }

  /** `collection[k] = v`. */
  function Put(d: Dict, k: Key, v: Record): (r: Dict)
    requires WellKeyed(d)
    ensures WellKeyed(r)
    ensures r.store == d.store[k := v]
    ensures k in d.store ==> r.keys == d.keys
    ensures k !in d.store ==> r.keys == d.keys + [k]
  {
    if k in d.store then Dict(d.keys, d.store[k := v]) else Dict(d.keys + [k], d.store[k := v])
  }

  /** Every record of the values sits under some key of the store, and every stored record is listed. */
  lemma ValuesAreStored(d: Dict)
    requires WellKeyed(d)
    ensures forall x :: x in Values(d) ==> exists k :: k in d.store && d.store[k] == x
    ensures forall k :: k in d.store ==> d.store[k] in Values(d)
  {
    var vs := Values(d);
    forall k | k in d.store ensures d.store[k] in vs {
      var i :| 0 <= i < |d.keys| && d.keys[i] == k;
      assert vs[i] == d.store[k];
    }
  }

  /** Where a write lands in `Object.values`: a new key's record goes last,
      an existing key's record is replaced where it stood. */
  lemma PutValues(d: Dict, k: Key, v: Record)
    requires WellKeyed(d)
    ensures k !in d.store ==> Values(Put(d, k, v)) == Values(d) + [v]
    ensures k in d.store ==> exists i :: 0 <= i < |d.keys| && d.keys[i] == k
                                  && Values(Put(d, k, v)) == Values(d)[i := v]
  {
    if k in d.store {
      var i :| 0 <= i < |d.keys| && d.keys[i] == k;
      assert Values(Put(d, k, v)) == Values(d)[i := v];
    } else {
      assert Values(Put(d, k, v)) == Values(d) + [v];
    }
  }

  /** Writing the same key twice leaves only the second write. */
  lemma PutPut(d: Dict, k: Key, v1: Record, v2: Record)
    requires WellKeyed(d)
    ensures Put(Put(d, k, v1), k, v2) == Put(d, k, v2)
  {
  }

  /** The record names `file` as included somewhere. */
  predicate IsIncludeOf(x: Record, file: Path) {
    x.file == file && x.isInclude
  }

  /** `get_file_parents`: `filter(collection, {file, isInclude: true})`. */
  function Parents(records: seq<Record>, file: Path): (r: seq<Record>)
    ensures forall x :: x in r <==> x in records && IsIncludeOf(x, file)
    ensures |r| <= |records|
  {
    if records == [] then []
    else (if IsIncludeOf(records[0], file) then [records[0]] else []) + Parents(records[1..], file)
  }

  /** The filter keeps collection order: it distributes over concatenation. */
  lemma {:induction false} ParentsAppend(a: seq<Record>, b: seq<Record>, file: Path)
    ensures Parents(a + b, file) == Parents(a, file) + Parents(b, file)
  {
    if a == [] {
      assert a + b == b;
    } else {
      assert (a + b)[0] == a[0];
      assert (a + b)[1..] == a[1..] + b;
      ParentsAppend(a[1..], b, file);
    }
  }

  /** A root record (isInclude false) is never an ancestor record. */
  lemma RootRecordNeverParent(records: seq<Record>, file: Path, p: Path)
    ensures Record(file, p, false) !in Parents(records, file)
  {
  }

  /** The inner loop of index.js:121-129: one write to `key` per ancestor. */
  function PutEach(d: Dict, key: Key, file: Path, ancestors: seq<Record>): (r: Dict)
    requires WellKeyed(d)
    ensures WellKeyed(r)
    decreases |ancestors|
  {
    if ancestors == [] then d
    else
      var last := ancestors[|ancestors| - 1];
      Put(PutEach(d, key, file, ancestors[..|ancestors| - 1]), key, Record(file, last.parent, true))
  }

  /** One more ancestor is one more write. */
  lemma PutEachSnoc(d: Dict, key: Key, file: Path, ancestors: seq<Record>, j: nat)
    requires WellKeyed(d) && j < |ancestors|
    ensures PutEach(d, key, file, ancestors[..j + 1])
            == Put(PutEach(d, key, file, ancestors[..j]), key, Record(file, ancestors[j].parent, true))
  {
    assert ancestors[..j + 1][..j] == ancestors[..j];
  }

  /** All writes of the inner loop hit one key, so only the last ancestor's parent survives. */
  lemma {:induction false} PutEachIsLastWrite(d: Dict, key: Key, file: Path, ancestors: seq<Record>)
    requires WellKeyed(d) && ancestors != []
    ensures PutEach(d, key, file, ancestors)
            == Put(d, key, Record(file, ancestors[|ancestors| - 1].parent, true))
    decreases |ancestors|
  {
    var init := ancestors[..|ancestors| - 1];
    if init != [] {
      PutEachIsLastWrite(d, key, file, init);
      assert init[|init| - 1] == ancestors[|ancestors| - 2];
      PutPut(d, key, Record(file, init[|init| - 1].parent, true),
             Record(file, ancestors[|ancestors| - 1].parent, true));
    }
  }

  /** The key of the record for `inc` written while parsing `parentPath`. */
  function IncludeTarget(parentPath: Path, inc: string): Path {
    Join(Dirname(parentPath), inc)
  }

  /** The body of the outer loop of `parentize_includes` once the target is
      known: one write per ancestor record, or one direct write. */
  function WriteInclude(d: Dict, parentPath: Path, target: Path): (r: Dict)
    requires WellKeyed(d)
    ensures WellKeyed(r)
  {
    var ancestors := Parents(Values(d), parentPath);
    var key := EdgeKey(target, parentPath);
    if |ancestors| > 0 then PutEach(d, key, target, ancestors)
    else Put(d, key, Record(target, parentPath, true))
  }

  /** One iteration of the outer loop of `parentize_includes` (index.js:110-139). */
  function ParentizeStep(d: Dict, parentPath: Path, inc: string): (r: Dict)
    requires WellKeyed(d)
    ensures WellKeyed(r)
  {
    WriteInclude(d, parentPath, IncludeTarget(parentPath, inc))
  }

  /** The parent an include record gets: the including file itself when it has
      no ancestor records yet, else the parent of its last ancestor record. */
  function InheritedParent(records: seq<Record>, parentPath: Path): (p: Path)
    ensures Parents(records, parentPath) == [] ==> p == parentPath
    ensures Parents(records, parentPath) != [] ==>
      exists x :: x in records && IsIncludeOf(x, parentPath) && x.parent == p
  {
    var ancestors := Parents(records, parentPath);
    if ancestors == [] then parentPath
    else
      assert ancestors[|ancestors| - 1] in ancestors;
      ancestors[|ancestors| - 1].parent
  }

  /** A step is a single write of one include record under the key
      (target, including file); nothing else in the dictionary changes, and at
      most one key is added. */
  lemma ParentizeStepIsOneWrite(d: Dict, parentPath: Path, inc: string)
    requires WellKeyed(d)
    ensures var target := IncludeTarget(parentPath, inc);
      ParentizeStep(d, parentPath, inc)
      == Put(d, EdgeKey(target, parentPath), Record(target, InheritedParent(Values(d), parentPath), true))
  {
    var ancestors := Parents(Values(d), parentPath);
    if ancestors != [] {
      PutEachIsLastWrite(d, EdgeKey(IncludeTarget(parentPath, inc), parentPath),
                         IncludeTarget(parentPath, inc), ancestors);
    }
  }

  /** Direct parent: an including file without ancestor records becomes the parent. */
  lemma DirectParent(d: Dict, parentPath: Path, inc: string)
    requires WellKeyed(d) && Parents(Values(d), parentPath) == []
    ensures var target := IncludeTarget(parentPath, inc);
      var r := ParentizeStep(d, parentPath, inc);
      && r.store == d.store[EdgeKey(target, parentPath) := Record(target, parentPath, true)]
      && (r.keys == d.keys || r.keys == d.keys + [EdgeKey(target, parentPath)])
  {
    ParentizeStepIsOneWrite(d, parentPath, inc);
  }

  /** Propagation: an including file that is itself included passes on the
      parent of its last ancestor record; the including file is the stored
      parent only if that ancestor record already named it. */
  lemma PropagatedParent(d: Dict, parentPath: Path, inc: string)
    requires WellKeyed(d) && Parents(Values(d), parentPath) != []
    ensures var target := IncludeTarget(parentPath, inc);
      var ancestors := Parents(Values(d), parentPath);
      var r := ParentizeStep(d, parentPath, inc);
      && r.store == d.store[EdgeKey(target, parentPath) := Record(target, ancestors[|ancestors| - 1].parent, true)]
      && (r.keys == d.keys || r.keys == d.keys + [EdgeKey(target, parentPath)])
  {
    ParentizeStepIsOneWrite(d, parentPath, inc);
  }

  /** A chain root R <- B <- C: when B's only ancestor record names R, the
      record written for C names R, not B. */
  lemma ChainResolvesToRoot(d: Dict, b: Path, r: Path, inc: string)
    requires WellKeyed(d) && Parents(Values(d), b) == [Record(b, r, true)]
    ensures ParentizeStep(d, b, inc).store[EdgeKey(IncludeTarget(b, inc), b)]
            == Record(IncludeTarget(b, inc), r, true)
  {
    PropagatedParent(d, b, inc);
  }

  /** `parentize_includes(parentPath)` over the include paths of its text, in order. */
  function Parentize(d: Dict, parentPath: Path, incs: seq<string>): (r: Dict)
    requires WellKeyed(d)
    ensures WellKeyed(r)
    decreases |incs|
  {
    if incs == [] then d
    else ParentizeStep(Parentize(d, parentPath, incs[..|incs| - 1]), parentPath, incs[|incs| - 1])
  }

  /** One more include path is one more step. */
  lemma ParentizeSnoc(d: Dict, parentPath: Path, incs: seq<string>, i: nat)
    requires WellKeyed(d) && i < |incs|
    ensures Parentize(d, parentPath, incs[..i + 1])
            == ParentizeStep(Parentize(d, parentPath, incs[..i]), parentPath, incs[i])
  {
    assert incs[..i + 1][..i] == incs[..i];
  }

  /** A discovered file and its depth below the raw folder (index.js:64-70). */
  datatype Found = Found(file: Path, depth: nat)

  function Discover(root: Path, globbed: seq<Path>): (r: seq<Found>)
    ensures |r| == |globbed|
    ensures forall i :: 0 <= i < |r| ==> r[i] == Found(globbed[i], Depth(root, globbed[i]))
  {
    seq(|globbed|, i requires 0 <= i < |globbed| => Found(globbed[i], Depth(root, globbed[i])))
  }

  /** The files of one depth, in list order. */
  function AtDepth(s: seq<Found>, depth: nat): seq<Found> {
    if s == [] then []
    else (if s[0].depth == depth then [s[0]] else []) + AtDepth(s[1..], depth)
  }

  /** `AtDepth` keeps exactly the files of that depth. */
  lemma {:induction false} AtDepthMembers(s: seq<Found>, depth: nat)
    ensures forall x :: x in AtDepth(s, depth) <==> x in s && x.depth == depth
  {
    if s != [] {
      AtDepthMembers(s[1..], depth);
      assert forall x :: x in s <==> x == s[0] || x in s[1..];
    }
  }

  predicate SortedByDepth(s: seq<Found>) {
    forall i, j :: 0 <= i < j < |s| ==> s[i].depth <= s[j].depth
  }

  lemma SortedCons(y: Found, t: seq<Found>)
    requires SortedByDepth(t) && (t == [] || y.depth <= t[0].depth)
    ensures SortedByDepth([y] + t)
  {
    var r := [y] + t;
    forall i, j | 0 <= i < j < |r| ensures r[i].depth <= r[j].depth {
      if i > 0 {
        assert r[i] == t[i - 1] && r[j] == t[j - 1];
      } else {
        assert r[j] == t[j - 1];
      }
    }
  }

  lemma AtDepthCons(y: Found, t: seq<Found>, depth: nat)
    ensures AtDepth([y] + t, depth) == (if y.depth == depth then [y] else []) + AtDepth(t, depth)
  {
    assert ([y] + t)[1..] == t;
  }

  /** Places `x` before the first file at least as deep. */
  function Insert(x: Found, s: seq<Found>): (r: seq<Found>)
    requires SortedByDepth(s)
    ensures |r| == |s| + 1
    ensures r[0] == x || (s != [] && r[0] == s[0])
    ensures SortedByDepth(r)
    ensures multiset(r) == multiset(s) + multiset{x}
  {
    if s == [] || x.depth <= s[0].depth then
      SortedCons(x, s);
      [x] + s
    else
      var t := Insert(x, s[1..]);
      assert s == [s[0]] + s[1..];
      SortedCons(s[0], t);
      [s[0]] + t
  }

  /** Insertion keeps the files of each depth in order, `x` first among its depth. */
  lemma {:induction false} InsertAtDepth(x: Found, s: seq<Found>, depth: nat)
    requires SortedByDepth(s)
    ensures AtDepth(Insert(x, s), depth) == (if x.depth == depth then [x] else []) + AtDepth(s, depth)
  {
    if s == [] || x.depth <= s[0].depth {
      AtDepthCons(x, s, depth);
    } else {
      var t := Insert(x, s[1..]);
      InsertAtDepth(x, s[1..], depth);
      AtDepthCons(s[0], t, depth);
      assert s == [s[0]] + s[1..];
      AtDepthCons(s[0], s[1..], depth);
      var hx := if x.depth == depth then [x] else [];
      var h0 := if s[0].depth == depth then [s[0]] else [];
      var rest := AtDepth(s[1..], depth);
      assert AtDepth(Insert(x, s), depth) == h0 + (hx + rest);
      if x.depth == depth {
        assert h0 == [] && h0 + (hx + rest) == hx + rest;
      } else {
        assert hx == [] && hx + rest == rest;
      }
    }
  }

  /** `orderBy(files, 'depth')`: a stable sort by ascending depth. */
  function SortByDepth(s: seq<Found>): (r: seq<Found>)
    ensures SortedByDepth(r)
    ensures multiset(r) == multiset(s)
    ensures forall depth :: AtDepth(r, depth) == AtDepth(s, depth)
  {
    if s == [] then []
    else
      var t := SortByDepth(s[1..]);
      assert s == [s[0]] + s[1..];
      forall depth ensures AtDepth(Insert(s[0], t), depth) == AtDepth(s, depth) {
        InsertAtDepth(s[0], t, depth);
      }
      Insert(s[0], t)
  }

  /** What one iteration of the loop of `get_pug_files` does (index.js:76-90):
      register a depth-1 file as its own root, then parse its includes. */
  function Visit(d: Dict, f: Found, read: Path -> string): (r: Dict)
    requires WellKeyed(d)
    ensures WellKeyed(r)
  {
    var d1 := if f.depth == 1 then Put(d, SelfKey(f.file), Record(f.file, f.file, false)) else d;
    Parentize(d1, f.file, Includes.Includes(read(f.file)))
  }

  /** The loop of `get_pug_files` over the sorted files, in order. */
  function BuildDict(d: Dict, files: seq<Found>, read: Path -> string): (r: Dict)
    requires WellKeyed(d)
    ensures WellKeyed(r)
    decreases |files|
  {
    if files == [] then d
    else Visit(BuildDict(d, files[..|files| - 1], read), files[|files| - 1], read)
  }

  /** One more file is one more visit. */
  lemma BuildDictSnoc(d: Dict, files: seq<Found>, read: Path -> string, i: nat)
    requires WellKeyed(d) && i < |files|
    ensures BuildDict(d, files[..i + 1], read) == Visit(BuildDict(d, files[..i], read), files[i], read)
  {
    assert files[..i + 1][..i] == files[..i];
  }

  /** The files `get_pug_files` parses, in the order it parses them. */
  function ParseOrder(root: Path, globbed: seq<Path>): seq<Found> {
    SortByDepth(Discover(root, globbed))
  }

  /** `get_pug_files` up to `Object.values` (index.js:63-93). */
  function Build(root: Path, globbed: seq<Path>, read: Path -> string): seq<Record> {
    Values(BuildDict(Empty(), ParseOrder(root, globbed), read))
  }

  /** Files are parsed shallowest first, each discovered file exactly once
      (as often as it was discovered), and files of equal depth in discovery order. */
  lemma ParseOrderIsStableDepthOrder(root: Path, globbed: seq<Path>)
    ensures var order := ParseOrder(root, globbed);
      && SortedByDepth(order)
      && multiset(order) == multiset(Discover(root, globbed))
      && |order| == |globbed|
      && forall depth :: AtDepth(order, depth) == AtDepth(Discover(root, globbed), depth)
  {
    var order := ParseOrder(root, globbed);
    assert |multiset(order)| == |multiset(Discover(root, globbed))|;
  }

  /** The paths of the depth-1 files of a list. */
  function RootFiles(files: seq<Found>): set<Path> {
    set f | f in files && f.depth == 1 :: f.file
  }

  /** What each kind of key holds. */
  predicate Fits(k: Key, x: Record, roots: set<Path>) {
    match k
    case SelfKey(p) => x == Record(p, p, false) && p in roots
    case EdgeKey(a, _) => x.file == a && x.isInclude
  }

  /** The builder's invariant: every key holds a record of its own kind and
      every depth-1 file seen so far has its root record. */
  ghost predicate Shaped(d: Dict, roots: set<Path>) {
    && WellKeyed(d)
    && (forall k :: k in d.store ==> Fits(k, d.store[k], roots))
    && (forall p :: p in roots ==> SelfKey(p) in d.store)
  }

  lemma StepKeepsShape(d: Dict, parentPath: Path, inc: string, roots: set<Path>)
    requires Shaped(d, roots)
    ensures Shaped(ParentizeStep(d, parentPath, inc), roots)
  {
    ParentizeStepIsOneWrite(d, parentPath, inc);
  }

  lemma {:induction false} ParentizeKeepsShape(d: Dict, parentPath: Path, incs: seq<string>, roots: set<Path>)
    requires Shaped(d, roots)
    ensures Shaped(Parentize(d, parentPath, incs), roots)
    decreases |incs|
  {
    if incs != [] {
      ParentizeKeepsShape(d, parentPath, incs[..|incs| - 1], roots);
      StepKeepsShape(Parentize(d, parentPath, incs[..|incs| - 1]), parentPath, incs[|incs| - 1], roots);
    }
  }

  lemma {:induction false} BuildDictShaped(files: seq<Found>, read: Path -> string)
    ensures Shaped(BuildDict(Empty(), files, read), RootFiles(files))
    decreases |files|
  {
    if files != [] {
      var init := files[..|files| - 1];
      var f := files[|files| - 1];
      assert files == init + [f];
      BuildDictShaped(init, read);
      var d := BuildDict(Empty(), init, read);
      var roots := RootFiles(files);
      assert RootFiles(files) == RootFiles(init) + (if f.depth == 1 then {f.file} else {});
      var d1 := if f.depth == 1 then Put(d, SelfKey(f.file), Record(f.file, f.file, false)) else d;
      assert Shaped(d1, roots);
      ParentizeKeepsShape(d1, f.file, Includes.Includes(read(f.file)), roots);
    }
  }

  /** The root records of `records` are exactly those of the depth-1 files of `globbed`. */
  predicate RootsRegistered(root: Path, globbed: seq<Path>, records: seq<Record>) {
    && (forall g :: g in globbed && Depth(root, g) == 1 ==> Record(g, g, false) in records)
    && (forall x :: x in records && !x.isInclude ==>
          x.parent == x.file && x.file in globbed && Depth(root, x.file) == 1)
  }

  /** Depth-1 roots: every file found directly in the raw folder has the root
      record {file, parent: file, isInclude: false}, and every root record is
      of that shape and belongs to a depth-1 file, so deeper files never get one. */
  lemma DepthOneRoots(root: Path, globbed: seq<Path>, read: Path -> string)
    ensures RootsRegistered(root, globbed, Build(root, globbed, read))
  {
    var order := ParseOrder(root, globbed);
    var found := Discover(root, globbed);
    var d := BuildDict(Empty(), order, read);
    BuildDictShaped(order, read);
    ValuesAreStored(d);
    assert forall f :: f in order <==> f in found by {
      forall f ensures f in order <==> f in found {
        assert f in order <==> f in multiset(order);
        assert f in found <==> f in multiset(found);
      }
    }
    forall g | g in globbed && Depth(root, g) == 1 ensures Record(g, g, false) in Values(d) {
      var i :| 0 <= i < |globbed| && globbed[i] == g;
      assert found[i] in order;
      assert g in RootFiles(order);
      assert d.store[SelfKey(g)] == Record(g, g, false);
    }
    forall x | x in Values(d) && !x.isInclude ensures x.parent == x.file && x.file in globbed && Depth(root, x.file) == 1 {
      var k :| k in d.store && d.store[k] == x;
      assert Fits(k, x, RootFiles(order));
      var f :| f in order && f.depth == 1 && f.file == k.path;
      assert f in found;
    }
  }

  /** The graph has only root records and include records. */
  lemma RecordsAreRootsOrIncludes(root: Path, globbed: seq<Path>, read: Path -> string)
    ensures forall x :: x in Build(root, globbed, read) ==>
      x.isInclude || (x.parent == x.file && Depth(root, x.file) == 1)
  {
    DepthOneRoots(root, globbed, read);
  }

  /** An include written without its extension is recorded under the bare
      name: the record for `include b` in /r/a.pug has file /r/b, so a change
      to /r/b.pug finds no ancestor record through it. */
  lemma ExtensionlessIncludeKeepsBareName(dir: Path)
    requires Normal(dir)
    ensures IncludeTarget(dir + ["a.pug"], "b") == dir + ["b"]
    ensures IncludeTarget(dir + ["a.pug"], "b") != dir + ["b.pug"]
  {
    assert Dirname(dir + ["a.pug"]) == dir;
    assert Split("b") == ["b"];
    ResolvePlain(dir, ["b"]);
    assert (dir + ["b"])[|dir|] == "b";
    assert (dir + ["b.pug"])[|dir|] == "b.pug";
  }

  /** `path.extname(segment) != ""`: a '.' somewhere after the first character. */
  predicate HasExtension(segment: string) {
    |segment| > 1 && '.' in segment[1..]
  }

  /** The file Pug itself loads for `include <inc>` in `parentPath`: the
      joined path, with ".pug" appended to a last segment without an extension. */
  function PugIncludeTarget(parentPath: Path, inc: string): (p: Path)
    ensures var t := IncludeTarget(parentPath, inc);
      if t != [] && !HasExtension(t[|t| - 1])
      then |p| == |t| && p[..|t| - 1] == t[..|t| - 1] && p[|t| - 1] == t[|t| - 1] + ".pug"
      else p == t
  {
    var t := IncludeTarget(parentPath, inc);
    if t != [] && !HasExtension(t[|t| - 1]) then t[..|t| - 1] + [t[|t| - 1] + ".pug"] else t
  }

  /** The target Pug loads always names a file with an extension. */
  lemma PugIncludeTargetHasExtension(parentPath: Path, inc: string)
    requires Normal(parentPath) && IncludeTarget(parentPath, inc) != []
    ensures var p := PugIncludeTarget(parentPath, inc);
      p != [] && HasExtension(p[|p| - 1])
  {
    var t := IncludeTarget(parentPath, inc);
    assert Normal(Dirname(parentPath)) by {
      var dir := Dirname(parentPath);
      forall i | 0 <= i < |dir| ensures dir[i] == parentPath[i] { }
    }
    assert t[|t| - 1] != "";
    var p := PugIncludeTarget(parentPath, inc);
    var last := p[|p| - 1];
    if !HasExtension(t[|t| - 1]) {
      assert last == t[|t| - 1] + ".pug";
      assert last[1..][|last| - 5] == '.';
    }
  }

  /** `parentize_includes` as Pug resolves includes: the same writes, under
      the target Pug loads. */
  function PugParentizeStep(d: Dict, parentPath: Path, inc: string): (r: Dict)
    requires WellKeyed(d)
    ensures WellKeyed(r)
  {
    WriteInclude(d, parentPath, PugIncludeTarget(parentPath, inc))
  }

  /** Corrected: the record for `include b` in /r/a.pug has file /r/b.pug,
      and an include that names its extension keeps the target as written. */
  lemma ExtensionlessIncludeGetsPugExtension(dir: Path)
    requires Normal(dir)
    ensures PugIncludeTarget(dir + ["a.pug"], "b") == dir + ["b.pug"]
    ensures PugIncludeTarget(dir + ["a.pug"], "b.pug") == IncludeTarget(dir + ["a.pug"], "b.pug")
  {
    ExtensionlessIncludeKeepsBareName(dir);
    var t := dir + ["b"];
    assert t[..|t| - 1] == dir && t[|t| - 1] == "b";
    assert !HasExtension("b");
    assert "b" + ".pug" == "b.pug";
    assert PugIncludeTarget(dir + ["a.pug"], "b") == dir + ["b" + ".pug"];
    var u := IncludeTarget(dir + ["a.pug"], "b.pug");
    assert Split("b.pug") == ["b.pug"];
    ResolvePlain(dir, ["b.pug"]);
    assert u[|u| - 1] == "b.pug";
    assert "b.pug"[1..][0] == '.';
  }
}
