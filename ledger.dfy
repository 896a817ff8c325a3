/**
 * The debounce ledger of `compile_file`: the global array
 * `recentlyCompiledFilesArray` of `{file, time}` entries, consulted before a
 * compile and appended to (then cut to its last 20 entries) after every
 * compile attempt, whether the compiler succeeded or threw.
 */
module Ledger {
  import opened Wrappers
  import opened Paths

  /** `{file, time}`, time in milliseconds. */
  datatype Stamp = Stamp(file: Path, time: int)

  /** Entries kept by `slice(-20)`. */
  const Capacity: nat := 20

  /** `options.wait || 1000`: an absent window, or 0, means 1000 ms. */
  function RecompileAfter(wait: Option<int>): (w: int)
    ensures wait.Some? && wait.value != 0 ==> w == wait.value
    ensures wait.None? || wait == Some(0) ==> w == 1000
  {
    match wait
    case None => 1000
    case Some(v) => if v == 0 then 1000 else v
  }

  /** `filter(ledger, {file}).map(o => now - o.time)`. */
  function AgesOf(ledger: seq<Stamp>, file: Path, now: int): (ages: seq<int>)
    ensures |ages| <= |ledger|
  {
    if ledger == [] then []
    else (if ledger[0].file == file then [now - ledger[0].time] else []) + AgesOf(ledger[1..], file, now)
  }

  /** `.filter(d => d <= wait)`. */
  function WithinWindow(ages: seq<int>, wait: int): (r: seq<int>)
    ensures forall a :: a in r <==> a in ages && a <= wait
  {
    if ages == [] then []
    else (if ages[0] <= wait then [ages[0]] else []) + WithinWindow(ages[1..], wait)
  }

  lemma {:induction false} WithinWindowAppend(a: seq<int>, b: seq<int>, wait: int)
    ensures WithinWindow(a + b, wait) == WithinWindow(a, wait) + WithinWindow(b, wait)
  {
    if a == [] {
      assert a + b == b;
    } else {
      var h := if a[0] <= wait then [a[0]] else [];
      assert (a + b)[0] == a[0];
      assert (a + b)[1..] == a[1..] + b;
      WithinWindowAppend(a[1..], b, wait);
      assert WithinWindow(a + b, wait) == h + (WithinWindow(a[1..], wait) + WithinWindow(b, wait));
      assert WithinWindow(a, wait) == h + WithinWindow(a[1..], wait);
    }
  }

  /** Some entry for `file` is at most `wait` ms old at time `now`. */
  predicate HasRecentEntry(ledger: seq<Stamp>, file: Path, now: int, wait: int) {
    exists i :: 0 <= i < |ledger| && ledger[i].file == file && now - ledger[i].time <= wait
  }

  /** The filter/map/filter chain finds a recent entry exactly when there is one. */
  lemma {:induction false} AgesWithinWindow(ledger: seq<Stamp>, file: Path, now: int, wait: int)
    ensures |WithinWindow(AgesOf(ledger, file, now), wait)| > 0 <==> HasRecentEntry(ledger, file, now, wait)
  {
    if ledger != [] {
      var head := if ledger[0].file == file then [now - ledger[0].time] else [];
      var tail := ledger[1..];
      AgesWithinWindow(tail, file, now, wait);
      WithinWindowAppend(head, AgesOf(tail, file, now), wait);
      if HasRecentEntry(tail, file, now, wait) {
        var i :| 0 <= i < |tail| && tail[i].file == file && now - tail[i].time <= wait;
        assert ledger[i + 1] == tail[i];
      }
      if HasRecentEntry(ledger, file, now, wait) {
        var i :| 0 <= i < |ledger| && ledger[i].file == file && now - ledger[i].time <= wait;
        if i > 0 {
          assert tail[i - 1] == ledger[i];
        } else {
          assert now - ledger[0].time in WithinWindow(head, wait);
        }
      }
    }
  }

  /** `isRecentlyCompiled` (index.js:192-194): some entry for the same file is
      at most `wait` ms old.  An entry stamped later than `now` counts as recent. */
  function IsRecentlyCompiled(ledger: seq<Stamp>, file: Path, now: int, wait: int): (b: bool)
    ensures b <==> HasRecentEntry(ledger, file, now, wait)
  {
    AgesWithinWindow(ledger, file, now, wait);
    |WithinWindow(AgesOf(ledger, file, now), wait)| > 0
  }

  /** `array.slice(-20)`. */
  function KeepLast(s: seq<Stamp>): (r: seq<Stamp>)
    ensures |r| <= Capacity
    ensures |s| <= Capacity ==> r == s
    ensures |s| > Capacity ==> |r| == Capacity
    ensures r == s[|s| - |r|..]
  {
    if |s| <= Capacity then s else s[|s| - Capacity..]
  }

  /** What `pug.compileFileClient` gives: the module text, or the message of what it threw. */
  datatype CompileResult = Compiled(code: string) | CompileError(message: string)

  /** What one `compile_file` call did. */
  datatype Outcome =
    | Missing                              // the file is gone: nothing else happens
    | Suppressed                           // compiled too recently: skipped
    | Written(output: Path, code: string)  // compiled; the module written to `output`
    | Failed(message: string)              // the compiler threw; the message is logged

  predicate Attempted(o: Outcome) {
    o.Written? || o.Failed?
  }

  datatype Settings = Settings(outputFolder: Path, wait: int)

  /** The file system and the compiler as the core sees them: `fs.existsSync`
      and `pug.compileFileClient`. */
  datatype Env = Env(onDisk: Path -> bool, compile: Path -> CompileResult)

  /** The output module for a template: its base name with the first ".pug"
      turned into ".js", in the output folder (index.js:222). */
  function OutputFile(outputFolder: Path, filePath: Path): Path {
    Join(outputFolder, OutputName(Basename(filePath)))
  }

  /** `compile_file(filePath)`: what happens and the ledger afterwards.  The
      existence check and the compiler are given as functions, the clock as `now`. */
  function CompileStep(ledger: seq<Stamp>, settings: Settings, filePath: Path, now: int,
                       env: Env): (r: (Outcome, seq<Stamp>))
    ensures !env.onDisk(filePath) ==> r == (Missing, ledger)
    ensures env.onDisk(filePath) && IsRecentlyCompiled(ledger, filePath, now, settings.wait) ==> r == (Suppressed, ledger)
    ensures Attempted(r.0) <==> env.onDisk(filePath) && !IsRecentlyCompiled(ledger, filePath, now, settings.wait)
    ensures Attempted(r.0) ==> r.1 == KeepLast(ledger + [Stamp(filePath, now)])
    ensures r.0.Written? <==> Attempted(r.0) && env.compile(filePath).Compiled?
    ensures r.0.Written? ==> r.0 == Written(OutputFile(settings.outputFolder, filePath), env.compile(filePath).code)
    ensures r.0.Failed? ==> r.0 == Failed(env.compile(filePath).message)
  {
    if !env.onDisk(filePath) then (Missing, ledger)
    else if IsRecentlyCompiled(ledger, filePath, now, settings.wait) then (Suppressed, ledger)
    else
      var outcome := match env.compile(filePath)
        case Compiled(code) => Written(OutputFile(settings.outputFolder, filePath), code)
        case CompileError(message) => Failed(message);
      (outcome, KeepLast(ledger + [Stamp(filePath, now)]))
  }

  /** The ledger never holds more than 20 entries, and after an attempt its
      last entry is the one just made. */
  lemma LedgerBounded(ledger: seq<Stamp>, settings: Settings, filePath: Path, now: int,
                      env: Env)
    requires |ledger| <= Capacity
    ensures var r := CompileStep(ledger, settings, filePath, now, env);
      && |r.1| <= Capacity
      && (Attempted(r.0) ==> r.1 != [] && r.1[|r.1| - 1] == Stamp(filePath, now))
  {
  }

  /** The bound is global, not per file: once the ledger is full an attempt
      evicts the oldest entry, whatever file it belongs to. */
  lemma FullLedgerEvictsOldest(ledger: seq<Stamp>, settings: Settings, filePath: Path, now: int,
                               env: Env)
    requires |ledger| == Capacity
    requires env.onDisk(filePath) && !IsRecentlyCompiled(ledger, filePath, now, settings.wait)
    ensures CompileStep(ledger, settings, filePath, now, env).1 == ledger[1..] + [Stamp(filePath, now)]
  {
    assert (ledger + [Stamp(filePath, now)])[1..] == ledger[1..] + [Stamp(filePath, now)];
  }

  /** Debounce: after an attempt at `t1`, a call for the same file at any `t2`
      no more than `wait` ms later is suppressed (when `wait` is not negative). */
  lemma DebounceWindow(ledger: seq<Stamp>, settings: Settings, filePath: Path, t1: int, t2: int,
                       env1: Env, env2: Env)
    requires env1.onDisk(filePath) && !IsRecentlyCompiled(ledger, filePath, t1, settings.wait)
    requires env2.onDisk(filePath) && t2 - t1 <= settings.wait
    ensures var after := CompileStep(ledger, settings, filePath, t1, env1).1;
      CompileStep(after, settings, filePath, t2, env2) == (Suppressed, after)
  {
    var after := CompileStep(ledger, settings, filePath, t1, env1).1;
    assert after[|after| - 1] == Stamp(filePath, t1);
  }

  /** Once every entry for the file is older than the window, the next call
      for an existing file is attempted again. */
  lemma WindowElapsed(ledger: seq<Stamp>, settings: Settings, filePath: Path, now: int,
                      env: Env)
    requires env.onDisk(filePath)
    requires forall i :: 0 <= i < |ledger| && ledger[i].file == filePath ==> now - ledger[i].time > settings.wait
    ensures Attempted(CompileStep(ledger, settings, filePath, now, env).0)
  {
  }

  /** `s` is among the last `k` entries of the ledger. */
  predicate InTail(ledger: seq<Stamp>, s: Stamp, k: nat) {
    exists pos :: 0 <= pos && |ledger| - k <= pos < |ledger| && ledger[pos] == s
  }

  /** One more call moves an entry at most one place towards eviction. */
  lemma StepKeepsTail(ledger: seq<Stamp>, s: Stamp, k: nat, settings: Settings, filePath: Path, now: int,
                      env: Env)
    requires InTail(ledger, s, k) && k < Capacity
    ensures InTail(CompileStep(ledger, settings, filePath, now, env).1, s, k + 1)
  {
    var r := CompileStep(ledger, settings, filePath, now, env);
    var pos :| 0 <= pos && |ledger| - k <= pos < |ledger| && ledger[pos] == s;
    if Attempted(r.0) {
      var full := ledger + [Stamp(filePath, now)];
      var drop := |full| - |r.1|;
      assert full[pos] == s;
      assert r.1[pos - drop] == s;
    }
  }

  /** When no entry for `file` is recent at `now` and neither is `t`, none is
      after an attempt stamped `t`: the cut keeps a suffix of what was there. */
  lemma StaleAfterAttempt(ledger: seq<Stamp>, file: Path, wait: int, t: int, now: int)
    requires forall i :: 0 <= i < |ledger| && ledger[i].file == file ==> now - ledger[i].time > wait
    requires now - t > wait
    ensures var l := KeepLast(ledger + [Stamp(file, t)]);
      forall i :: 0 <= i < |l| && l[i].file == file ==> now - l[i].time > wait
  {
    var full := ledger + [Stamp(file, t)];
    var l := KeepLast(full);
    forall i | 0 <= i < |l| && l[i].file == file ensures now - l[i].time > wait {
      var at := |full| - |l| + i;
      assert l[i] == full[at];
      if at < |ledger| {
        assert full[at] == ledger[at];
      }
    }
  }
}
