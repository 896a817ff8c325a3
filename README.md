# pug-compiler: dependency graph and debounced recompilation

pug-compiler watches a folder of Pug templates ("the raw folder") and compiles
each template to a client-side JavaScript module in an output folder.  Its core,
in `index.js`, is the in-memory engine that decides what to compile:

- **Graph builder** (`get_pug_files`, `parentize_includes`).  The templates
  found under the raw folder get a depth: the number of path segments below
  the folder.  They are sorted by depth.  Each depth-1 template is registered
  as its own root.  Every template's text is then scanned for `include <path>`.
  Each match stores an include record `{file, parent, isInclude: true}` under
  the key "<included>:<including>".  The parent is the including file, or the
  parent of that file's last ancestor record when it has any.  The dictionary
  is finally replaced by the list of its values.
- **Ancestor lookup** (`get_file_parents`): the records for a file that have
  `isInclude` set, in collection order.
- **Dispatcher** (the watcher callback): a changed file that has ancestor
  records makes each record's parent compile.  A file without any compiles
  itself.
- **Debounce ledger** (`compile_file`).  A compile exits early when the file
  is gone.  It also exits early when the file was compiled at most `wait` ms
  ago.  Otherwise it compiles, writes `<name>.js`, appends `{file, time}` to a
  global ledger and keeps the ledger's last 20 entries.

The model is split by that structure:

- `paths.dfy`: POSIX paths as segment lists; `path.relative`-depth,
  `path.join`, `dirname`, `basename`; the output-name rewrite.
- `includes.dfy`: the scanner for the regular expression `/include\s+(.+)/g`.
- `graph.dfy`: the graph builder and ancestor lookup, as functions on an
  insertion-ordered dictionary.
- `ledger.dfy`: one `compile_file` call as a function of the ledger.
- `dispatch.dfy`: one watcher event as a fold of `compile_file` calls.
- `compiler.dfy`: the module's closure state as a class, `Compiler`.  Its
  methods (`GetPugFiles`, `ParentizeIncludes`, `CompileFile`, `OnChange`)
  keep the source's loops and in-place updates.  Each method is proved equal
  to the value-level function whose properties the lemmas establish.

The file system, the compiler and the clock are inputs:

- `glob.sync`'s result is a list of paths.
- `fs.readFileSync` is a function from path to text.
- `fs.existsSync` and `pug.compileFileClient` form an `Env`.
- `Date.now()` is a clock: within one watcher event, the `k`-th
  `compile_file` call reads `clock(k)`, so each call has its own reading.

## Model

| member | source | states |
|---|---|---|
| Paths.Depth | index.js:68 | the split of a relative path has at least one piece, so a depth is never 0 |
| Paths.DepthUnderRoot | index.js:64-69 | a file `root + rest` has depth `|rest|`, and its relative path is `rest` |
| Paths.CommonPrefix | index.js:68 | the shared leading segments of two paths, and the first segments where they differ |
| Paths.Relative | index.js:68 | `path.relative` as segments: one ".." per segment of the root past the common prefix, then the rest of the file; `Paths.DepthUnderRoot` gives its value under the root |
| Paths.Split | index.js:117 | splitting at '/' yields at least one piece, and no piece holds a '/' |
| Paths.SplitJoin | index.js:117 | joining the pieces of a split with '/' gives the original text back |
| Paths.Resolve | index.js:117 | normalizing a join of a normal directory with slash-free pieces gives a normal path |
| Paths.Join | index.js:117 | `path.join` of a normal directory and any text is a normal path |
| Paths.ResolvePlain | index.js:117 | plain segments are appended unchanged |
| Paths.ResolveUp | index.js:117 | a leading ".." removes the directory's last segment |
| Paths.Dirname | index.js:117 | the directory is the path without its last segment |
| Paths.Basename | index.js:203 | a path is its directory plus its base name |
| Paths.IndexOf | index.js:222 | `indexOf` gives the first occurrence from its start, or none when there is none |
| Paths.ReplaceFirst | index.js:222 | a string pattern's first occurrence is replaced, and text without it is unchanged |
| Paths.OutputName | index.js:222 | `fileName.replace('.pug', '.js')`; `Paths.OutputNameFirstOnly`, `Paths.OutputNameOfTemplate` and `Paths.OutputNameWithoutExtension` state its values |
| Paths.OutputNameFirstOnly | index.js:222 | in `stem + ".pug" + rest` with no ".pug" in `stem`, that one ".pug" becomes ".js" and `rest` (later ".pug"s too) is kept |
| Paths.OutputNameOfTemplate | index.js:222 | `stem.pug` is written as `stem.js` when `stem` has no ".pug" |
| Paths.OutputNameWithoutExtension | index.js:222 | a name without ".pug" is kept as it is |
| Includes.SpaceRun | index.js:101 | greedy `\s+`: the longest run of JavaScript white space |
| Includes.LineRun | index.js:101 | greedy `.+`: the longest run without a line terminator |
| Includes.Backtrack | index.js:101 | `\s+` gives back spaces until `.` can match, taking the longest run that works, or fails |
| Includes.MatchAt | index.js:101 | a match is the keyword, white space and a non-empty rest of the line ending at a terminator or the end; the capture starts at the last place in the keyword's run of white space where `.` can match, and after the keyword the expression fails exactly when no place in that run, past its first space, can start `.` |
| Includes.IncludesFrom | index.js:108-112 | every captured path is a non-empty piece of one line, and there are no more captures than characters |
| Includes.Includes | index.js:108 | `content.matchAll(regexp)` from the start of the text; its values are stated by `Includes.NoKeywordNoIncludes`, `Includes.SingleDirective`, `Includes.PlainTextThenDirective` and `Includes.DirectiveLine` |
| Includes.NoKeywordNoIncludes | index.js:108-112 | a text without "include" yields no includes |
| Includes.SingleDirective | index.js:101-112 | `include<blanks><path>` yields exactly `<path>`, the rest of the line |
| Includes.NoMatchBefore | index.js:108-112 | text without the keyword adds no capture: the scan resumes where the keyword-free stretch ends |
| Includes.DirectiveAt | index.js:101-112 | a keyword, white space, and a line piece not starting with white space give one capture, that piece, and the scan resumes at the line's end |
| Includes.PlainTextThenDirective | index.js:101-112 | keyword-free text, then a directive: the first capture is the directive's path, and the rest is the scan after its line |
| Includes.DirectiveLayout | index.js:101 | in `pre + "include" + blanks + path + "\n" + rest` with keyword-free `pre`, the keyword sits right after `pre`, and the path spans the line up to its terminator |
| Includes.DirectiveLine | index.js:101-112 | a text of keyword-free lines, a directive line and any rest yields the directive's path first, then the scan of `s` from that line's terminator; later directives follow from `Includes.DirectiveAt` and `Includes.NoMatchBefore` at their positions in `s` |
| Graph.Values | index.js:93 | `Object.values` lists the records in key insertion order |
| Graph.Put | index.js:124-128 | assigning a new key appends it and an existing key keeps its place; the store maps the key to the new record |
| Graph.ValuesAreStored | index.js:93 | the values are exactly the stored records |
| Graph.PutValues | index.js:124-136 | a write to a new key appends its record to the values; a write to an existing key replaces that record in place |
| Graph.PutPut | index.js:121-129 | writing one key twice leaves only the second write |
| Graph.Parents | index.js:144-152 | the ancestor lookup holds exactly the records for the file with `isInclude` set |
| Graph.ParentsAppend | index.js:148 | the lookup keeps collection order: it distributes over concatenation |
| Graph.RootRecordNeverParent | index.js:148 | a root record (`isInclude` false) is never returned as an ancestor |
| Graph.PutEach | index.js:121-129 | the inner loop: one write of the include record per ancestor record, all under one key; `Graph.PutEachIsLastWrite` states its result |
| Graph.IncludeTarget | index.js:117 | `path.join(path.dirname(fileParentPath), file)` on the raw capture; `Graph.ExtensionlessIncludeKeepsBareName` shows it keeps an extensionless capture bare |
| Graph.WriteInclude | index.js:119-136 | one write per ancestor record, else one direct write, under the key (target, including file), keeping the dictionary well keyed |
| Graph.ParentizeStep | index.js:110-139 | one include match as the code does it, through `Graph.IncludeTarget`; `Graph.ParentizeStepIsOneWrite`, `Graph.DirectParent` and `Graph.PropagatedParent` state its result |
| Graph.PutEachIsLastWrite | index.js:121-129 | the inner loop's writes all hit one key, so only the last ancestor's parent survives |
| Graph.InheritedParent | index.js:115-136 | the stored parent is the including file without ancestors, else the parent of one of its ancestor records |
| Graph.ParentizeStepIsOneWrite | index.js:110-139 | one include match is one write under (target, including file); nothing else in the dictionary changes |
| Graph.DirectParent | index.js:130-136 | an including file without ancestor records becomes the parent, and at most that one key is added |
| Graph.PropagatedParent | index.js:120-129 | an including file with ancestor records passes on its last ancestor's parent |
| Graph.ChainResolvesToRoot | index.js:120-128 | in a chain R, B, C, with B included by R, the record for C names R and not B |
| Graph.Parentize | index.js:98-141 | `parentize_includes` as the steps over the include paths in order, keeping the dictionary well keyed; `Graph.ParentizeKeepsShape` states the invariant it keeps |
| Graph.Discover | index.js:63-70 | each globbed file is paired with its depth, in glob order |
| Graph.AtDepthMembers | index.js:73 | the files of one depth are exactly the listed files of that depth |
| Graph.Insert | index.js:73 | insertion into a depth-sorted list keeps it sorted and adds exactly the new file |
| Graph.InsertAtDepth | index.js:73 | insertion puts the new file first among its depth and keeps the others in order |
| Graph.SortByDepth | index.js:73 | `orderBy(files, 'depth')` is sorted, a permutation, and stable within each depth |
| Graph.Visit | index.js:80-89 | one iteration of the loop of `get_pug_files`: the root record for a depth-1 file, then `parentize_includes`, keeping the dictionary well keyed |
| Graph.BuildDict | index.js:76-90 | the loop over the sorted files, one visit each in order, keeping the dictionary well keyed; `Graph.BuildDictShaped` states its invariant |
| Graph.Build | index.js:63-93 | `get_pug_files`: discover, sort, visit, then `Object.values`; `Graph.DepthOneRoots` and `Graph.RecordsAreRootsOrIncludes` state what it holds |
| Graph.ParseOrderIsStableDepthOrder | index.js:63-90 | files are parsed shallowest first; each discovered file is parsed as often as it was discovered, whatever its includes; equal depths are parsed in discovery order |
| Graph.BuildDictShaped | index.js:76-90 | while the graph is built, self keys hold root records of depth-1 files, edge keys hold include records, and every depth-1 file has its self key |
| Graph.DepthOneRoots | index.js:80-86 | every depth-1 file has the record {file, parent: file, isInclude: false}, and every root record belongs to a depth-1 file |
| Graph.RecordsAreRootsOrIncludes | index.js:80-136 | the final list holds only include records and depth-1 root records |
| Graph.ExtensionlessIncludeKeepsBareName | index.js:117 | `include b` in `/r/a.pug` is recorded as `/r/b`, not `/r/b.pug` |
| Graph.PugIncludeTarget | index.js:117 | the file Pug loads: the joined path, with ".pug" added to a last segment without an extension, and otherwise the joined path |
| Graph.PugParentizeStep | index.js:110-139 | the corrected step: the same writes as `Graph.ParentizeStep`, under the target Pug loads, keeping the dictionary well keyed |
| Graph.PugIncludeTargetHasExtension | index.js:117 | the file Pug loads for an include always has an extension |
| Graph.ExtensionlessIncludeGetsPugExtension | index.js:117 | with Pug's rule, `include b` in `/r/a.pug` names `/r/b.pug`, and `include b.pug` names the joined path unchanged |
| Ledger.RecompileAfter | index.js:22 | the window is `options.wait`, or 1000 ms when it is absent or 0 |
| Ledger.AgesOf | index.js:192-193 | the ages of the file's entries are no more than the entries |
| Ledger.WithinWindow | index.js:194 | the ages kept are exactly those at most `wait` |
| Ledger.AgesWithinWindow | index.js:192-194 | the filter/map/filter chain is non-empty exactly when some entry for the file is at most `wait` old |
| Ledger.IsRecentlyCompiled | index.js:192-194 | true exactly when some ledger entry for the same path is at most `wait` old |
| Ledger.KeepLast | index.js:238 | `slice(-20)` is the last up-to-20 entries, and the ledger itself when it is no longer |
| Ledger.OutputFile | index.js:222 | `path.join(outputFolder, fileName.replace('.pug', '.js'))` on the base name of the template; `Ledger.CompileStep` writes the compiled module there |
| Ledger.CompileStep | index.js:183-238 | a missing file and a recent compile both return with the ledger unchanged; otherwise the compile is attempted, success writes the renamed module and failure keeps the message, and either way the ledger becomes the last 20 of old plus {file, now} |
| Ledger.LedgerBounded | index.js:232-238 | the ledger stays within 20 entries, and after an attempt its last entry is the new one |
| Ledger.FullLedgerEvictsOldest | index.js:232-238 | a full ledger drops its oldest entry, whatever file it belongs to |
| Ledger.DebounceWindow | index.js:192-198 | after an attempt at `t1`, a call at a `t2` no more than `wait` later is suppressed and changes nothing |
| Ledger.WindowElapsed | index.js:192-198 | once every entry for the file is older than the window, an existing file is compiled again |
| Ledger.StepKeepsTail | index.js:232-238 | one call moves an entry at most one place towards eviction |
| Ledger.StaleAfterAttempt | index.js:232-238 | when every entry for the file and a new attempt at `t` are older than the window at `now`, so is every entry for the file after the attempt is recorded |
| Dispatch.Targets | index.js:167-177 | the callback compiles the parent of every ancestor record, and only those parents; it compiles the file itself exactly when there is no ancestor record |
| Dispatch.TargetsFollowParents | index.js:170-173 | with ancestors, there is one parent compile per record, in lookup order |
| Dispatch.Run | index.js:171-176 | one outcome per `compile_file` call, each call seeing the ledger the previous one left and reading the clock afresh |
| Dispatch.OnChange | index.js:164-177 | the callback's calls for a change to `file` run in order; `Dispatch.DispatchToParents` and `Dispatch.DispatchToSelf` state its outcomes |
| Dispatch.RunSnoc | index.js:171-173 | one more call appends its outcome and replaces the ledger |
| Dispatch.RunAt | index.js:171-173 | the i-th outcome is `compile_file` of the i-th target on the ledger the first i calls left |
| Dispatch.RunBounded | index.js:232-238 | the ledger stays within 20 entries through a whole event |
| Dispatch.DispatchToParents | index.js:167-173 | with ancestor records, each outcome is a parent compile of the matching record's parent, in order |
| Dispatch.DispatchToSelf | index.js:174-177 | without ancestor records, the file is compiled exactly once, not as a parent |
| Dispatch.RunKeepsTail | index.js:232-238 | an entry among the last k stays among the last k + n after n more calls |
| Dispatch.AttemptedOncePerEvent | index.js:171-198 | within one event, a path attempted at call i is suppressed at a later call j when j is at most 20 calls after i and the clock has moved at most `wait` |
| Dispatch.AttemptedAgainAfterWindow | index.js:171-198 | within one event, the same existing path twice, with the clock moving past the window between the calls, is attempted both times |
| Dispatch.DebounceScenario | index.js:164-238 | a change compiles a file, a second change within the window does not, a third after the window does again, starting from any ledger without a recent entry for the file |
| Dispatch.OneIncludeDispatch | index.js:164-177 | after one root file with one include record, a change to the recorded target compiles the root file, and a change to any other file compiles only itself |
| Dispatch.OneIncludeValues | index.js:110-139 | one root file with one include: the values are its root record, then the include record under the target, parented to the root file |
| Dispatch.OneIncludeTargets | index.js:164-177 | over those two records, a change to the target compiles the root file as a parent, and a change to any other file compiles only itself |
| Dispatch.BareIncludeMissesChange | index.js:117 | as written, after `/r/a.pug` with `include b` is parsed, a change to `/r/b.pug` compiles only `/r/b.pug` |
| Dispatch.PugIncludeReachesParent | index.js:117 | with Pug's include rule, the same change compiles `/r/a.pug` as a parent |
| PugCompiler.Compiler.constructor | index.js:17-22 | the folders, the window, an empty collection and an empty ledger |
| PugCompiler.RecordsOf | index.js:146 | `Array.isArray(c) ? c : Object.values(c)`: the array itself, or the object's values in key order |
| PugCompiler.Compiler.GetFileParents | index.js:144-152 | the records of the current collection for the file with `isInclude` set, whether it is still an object or already an array |
| PugCompiler.Compiler.ParentizeIncludes | index.js:98-141 | the file's include matches are parented as `Graph.Parentize` describes; the ledger is untouched |
| PugCompiler.Compiler.ParentizeMatches | index.js:109-138 | the nested loops over the matches and the ancestors perform `Graph.Parentize`; the ledger is untouched |
| PugCompiler.Compiler.GetPugFiles | index.js:57-95 | the collection becomes the array `Graph.Build` describes, and its root records are exactly those of the depth-1 files |
| PugCompiler.Compiler.CompileFile | index.js:183-241 | the outcome and the new ledger are those of `Ledger.CompileStep`; the collection is untouched |
| PugCompiler.Compiler.OnChange | index.js:164-179 | the loop over the ancestors, or the single call, gives the outcomes and ledger of `Dispatch.OnChange`, with the `k`-th call reading `clock(k)`; the collection is untouched |

## Findings

| source | as written | input that shows it | evidently intended | confidence | as-written member | corrected member |
|---|---|---|---|---|---|---|
| index.js:117 | the include record names `path.join(dirname, capture)`, the captured text unchanged | `/r/a.pug` holding `include b`; then a change to `/r/b.pug` | Pug's include resolution: a path without an extension gets ".pug", so the record names `/r/b.pug` and a change to it recompiles `/r/a.pug` | not executed | Dispatch.BareIncludeMissesChange | Dispatch.PugIncludeReachesParent |

`Graph.ParentizeStep` and the `Compiler` class keep the code as written;
`Graph.PugParentizeStep` is the same step under `Graph.PugIncludeTarget`.

## Left out

- File-system I/O (`glob.sync`, `fs.readFileSync`, `fs.existsSync`, `fs.writeFileSync`, `fs.ensureDirSync`): these are inputs or outcomes. `Written` stands for the write.
- `chokidar.watch` and its `awaitWriteFinish` options: only the body of one event is modelled. The event kind `evt` is ignored, as in the source.
- `pug.compileFileClient` is a foreign library. It is an input function returning the module text or an error message.
- The rewrite of the compiled text and the import/export wrapper (index.js:213-219): `Written` carries the compiler's text unchanged.
- `make_funcs_file` and `pug_funcs_code` (index.js:244-261): a constant file write.
- The startup checks and all `console.log` output (index.js:26-37, 60, 187, 206, 228).
- `app-root-dir` and the `path.resolve` defaults of the folders (index.js:14-19): the folders are constructor arguments.
- cli.js: it only parses flags into the options.
- Ledger.CompileStep: one reading `now` per call stands for every clock reading of that call: the reading per matching ledger entry at index.js:193 and the stamp at index.js:234, which the source takes after the compile and the write. Time passing within one call is not modelled; between calls it is, through `clock`.
- Ledger.CompileStep: an exception from `fs.writeFileSync` is not modelled. The source logs it like a compiler error, and both still append a ledger entry.
- Graph.Put: keys are values of the `Key` datatype, not strings. Two different (included, including) pairs whose "<a>:<b>" strings coincide (paths containing ':') would share one key in the source. JavaScript's ordering of integer-like keys before other keys is not modelled either; template paths are absolute, so they are never integer-like.
- Paths.Depth: paths are segment lists of normalized absolute POSIX paths. Windows separators, trailing slashes and `path.relative`'s string form are not modelled.
- Paths.Join: the directory is normal, and the result is a segment list, so a trailing '/' of the captured text (`include b.pug/`) is dropped, while `path.join` keeps it and names `/r/b.pug/`. Trailing blanks of the capture stay part of the last segment, as in `path.join`.
- Graph.Discover: the globbed paths are taken as already normal, so `path.normalize` (index.js:67) changes nothing.
- PugCompiler.Compiler.GetPugFiles: the parse order is stated through `Graph.Build` and `Graph.ParseOrder`. The method's own contract does not restate their sortedness and permutation; `Graph.ParseOrderIsStableDepthOrder` proves those.
