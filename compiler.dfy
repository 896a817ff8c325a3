/**
 * The state held by the closure of index.js: the dependency collection, the
 * debounce ledger and the settings, with the loops of `get_pug_files`,
 * `parentize_includes`, the watcher callback and `compile_file` written as
 * methods that update that state in place.  Each method is tied to the
 * value-level functions of `Graph`, `Ledger` and `Dispatch`, where the
 * properties are proved.
 */
module PugCompiler {
  import opened Wrappers
  import opened Paths
  import Includes
  import opened Graph
  import opened Ledger
  import Dispatch

  /** `allPugFilesCollection`: an object while the graph is built, the array
      of its values once `get_pug_files` is done. */
  datatype Collection = Object(dict: Dict) | Array(records: seq<Record>)

  ghost predicate CollectionValid(c: Collection) {
    c.Object? ==> WellKeyed(c.dict)
  }

  /** `Array.isArray(c) ? c : Object.values(c)` (index.js:146). */
  function RecordsOf(c: Collection): seq<Record>
    requires CollectionValid(c)
  {
    match c
    case Object(d) => Values(d)
    case Array(rs) => rs
  }

  class Compiler {
    const rawFolder: Path
    const outputFolder: Path
    const recompileAfter: int
    var collection: Collection
    var recentlyCompiled: seq<Stamp>

    ghost predicate Valid()
      reads this
    {
      CollectionValid(collection) && |recentlyCompiled| <= Capacity
    }

    function Settings(): Ledger.Settings
      reads this
    {
      Ledger.Settings(outputFolder, recompileAfter)
    }

    /** The module's setup (index.js:14-23) with the folders already resolved. */
    constructor (dir: Path, out: Path, wait: Option<int>)
      ensures Valid()
      ensures rawFolder == dir && outputFolder == out && recompileAfter == RecompileAfter(wait)
      ensures collection == Object(Empty()) && recentlyCompiled == []
    {
      rawFolder := dir;
      outputFolder := out;
      recompileAfter := RecompileAfter(wait);
      collection := Object(Empty());
      recentlyCompiled := [];
    }

    /** `get_file_parents(file)`: the records for `file` with isInclude set, in collection order. */
    function GetFileParents(file: Path): (parents: seq<Record>)
      requires Valid()
      reads this
      ensures forall x :: x in parents <==> x in RecordsOf(collection) && IsIncludeOf(x, file)
      ensures parents == Parents(RecordsOf(collection), file)
    {
      Parents(RecordsOf(collection), file)
    }

    /** `parentize_includes(fileParentPath)` (index.js:98-141): for each include
        of the file's text, one write per ancestor record, or one direct write. */
    method ParentizeIncludes(fileParentPath: Path, read: Path -> string)
      requires Valid() && collection.Object?
      modifies this
      ensures Valid() && collection.Object? && recentlyCompiled == old(recentlyCompiled)
      ensures collection.dict == Parentize(old(collection.dict), fileParentPath, Includes.Includes(read(fileParentPath)))
    {
      var content := read(fileParentPath);
      var matches := Includes.Includes(content);
      ParentizeMatches(fileParentPath, matches);
    }

    /** The loop over the matches of `parentize_includes` (index.js:109-138). */
    method ParentizeMatches(fileParentPath: Path, matches: seq<string>)
      requires Valid() && collection.Object?
      modifies this
      ensures Valid() && collection.Object? && recentlyCompiled == old(recentlyCompiled)
      ensures collection.dict == Parentize(old(collection.dict), fileParentPath, matches)
    {
      ghost var start := collection.dict;
      var i := 0;
      while i < |matches|
        invariant 0 <= i <= |matches|
        invariant Valid() && collection.Object? && recentlyCompiled == old(recentlyCompiled)
        invariant collection.dict == Parentize(start, fileParentPath, matches[..i])
      {
        var file := matches[i];
        ghost var before := collection.dict;
        var fileAncestors := GetFileParents(fileParentPath);
        var pathToFile := Join(Dirname(fileParentPath), file);
        var key := EdgeKey(pathToFile, fileParentPath);
        if |fileAncestors| > 0 {
          var j := 0;
          while j < |fileAncestors|
            invariant 0 <= j <= |fileAncestors|
            invariant Valid() && collection.Object? && recentlyCompiled == old(recentlyCompiled)
            invariant collection.dict == PutEach(before, key, pathToFile, fileAncestors[..j])
          {
            var ancestors := fileAncestors[j];
            PutEachSnoc(before, key, pathToFile, fileAncestors, j);
            collection := Object(Put(collection.dict, key, Record(pathToFile, ancestors.parent, true)));
            j := j + 1;
          }
          assert fileAncestors[..j] == fileAncestors;
        } else {
          collection := Object(Put(collection.dict, key, Record(pathToFile, fileParentPath, true)));
        }
        ParentizeSnoc(start, fileParentPath, matches, i);
        i := i + 1;
      }
      assert matches[..i] == matches;
    }

    /** `get_pug_files` (index.js:57-95): find, sort by depth, register the
        depth-1 files as roots, parse every file once, then keep the values.
        `globbed` is what `glob.sync` returns and `read` stands for
        `fs.readFileSync`.  The order of parsing is `ParseOrder`. */
    method GetPugFiles(globbed: seq<Path>, read: Path -> string)
      requires Valid() && collection == Object(Empty())
      modifies this
      ensures Valid() && recentlyCompiled == old(recentlyCompiled)
      ensures collection == Array(Build(rawFolder, globbed, read))
      ensures RootsRegistered(rawFolder, globbed, collection.records)
    {
      var pugFilesInRawFolder := Discover(rawFolder, globbed);
      pugFilesInRawFolder := SortByDepth(pugFilesInRawFolder);
      var i := 0;
      while i < |pugFilesInRawFolder|
        invariant 0 <= i <= |pugFilesInRawFolder|
        invariant Valid() && collection.Object? && recentlyCompiled == old(recentlyCompiled)
        invariant collection.dict == BuildDict(Empty(), pugFilesInRawFolder[..i], read)
      {
        var fileObj := pugFilesInRawFolder[i];
        if fileObj.depth == 1 {
          collection := Object(Put(collection.dict, SelfKey(fileObj.file), Record(fileObj.file, fileObj.file, false)));
        }
        ParentizeIncludes(fileObj.file, read);
        BuildDictSnoc(Empty(), pugFilesInRawFolder, read, i);
        i := i + 1;
      }
      assert pugFilesInRawFolder[..i] == pugFilesInRawFolder;
      collection := Array(Values(collection.dict));
      assert collection.records == Build(rawFolder, globbed, read);
      DepthOneRoots(rawFolder, globbed, read);
    }

    /** `compile_file(filePath, isParent)` (index.js:183-241).  `now` is the
        clock reading, `env` the existence check and the compiler.  `isParent`
        only changes the log line. */
    method CompileFile(filePath: Path, isParent: bool, now: int, env: Env) returns (outcome: Outcome)
      requires Valid()
      modifies this
      ensures Valid() && collection == old(collection)
      ensures (outcome, recentlyCompiled) == CompileStep(old(recentlyCompiled), Settings(), filePath, now, env)
    {
      if !env.onDisk(filePath) {
        return Missing;
      }
      var isRecentlyCompiled := IsRecentlyCompiled(recentlyCompiled, filePath, now, recompileAfter);
      if isRecentlyCompiled {
        return Suppressed;
      }
      var fileName := Basename(filePath);
      match env.compile(filePath) {
        case Compiled(code) =>
          var outputFile := Join(outputFolder, OutputName(fileName));
          outcome := Written(outputFile, code);
        case CompileError(message) =>
          outcome := Failed(message);
      }
      recentlyCompiled := recentlyCompiled + [Stamp(filePath, now)];
      recentlyCompiled := KeepLast(recentlyCompiled);
    }

    /** The watcher callback for a change to `file` (index.js:164-179); the
        `k`-th `compile_file` call reads the clock as `clock(k)`. */
    method OnChange(file: Path, clock: nat -> int, env: Env) returns (outcomes: seq<Outcome>)
      requires Valid()
      modifies this
      ensures Valid() && collection == old(collection)
      ensures (outcomes, recentlyCompiled)
              == Dispatch.OnChange(RecordsOf(collection), old(recentlyCompiled), file, Settings(), clock, env)
    {
      ghost var targets := Dispatch.Targets(RecordsOf(collection), file);
      var parents := GetFileParents(file);
      if |parents| > 0 {
        Dispatch.TargetsFollowParents(RecordsOf(collection), file);
        outcomes := [];
        var i := 0;
        while i < |parents|
          invariant 0 <= i <= |parents|
          invariant Valid() && collection == old(collection)
          invariant (outcomes, recentlyCompiled)
                    == Dispatch.Run(old(recentlyCompiled), targets[..i], Settings(), clock, env)
        {
          var parentObj := parents[i];
          var outcome := CompileFile(parentObj.parent, true, clock(i), env);
          Dispatch.RunSnoc(old(recentlyCompiled), targets, Settings(), clock, env, i);
          outcomes := outcomes + [outcome];
          i := i + 1;
        }
        assert targets[..i] == targets;
      } else {
        var outcome := CompileFile(file, false, clock(0), env);
        outcomes := [outcome];
        Dispatch.DispatchToSelf(RecordsOf(old(collection)), old(recentlyCompiled), file, Settings(), clock, env);
      }
    }
  }
}
