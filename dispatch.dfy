/**
 * The body of the watcher callback (index.js:164-179): a changed file with
 * ancestor records makes each record's parent compile, in collection order;
 * a file without any compiles itself, once.
 */
module Dispatch {
  import opened Paths
  import opened Graph
  import opened Ledger

  /** One `compile_file(path, isParent)` call the callback makes. */
  datatype Target = Target(path: Path, isParent: bool)

  /** The calls the callback makes for a change to `file`, in order. */
  function Targets(records: seq<Record>, file: Path): (ts: seq<Target>)
    ensures |ts| >= 1
    ensures ts == [Target(file, false)] <==> forall x :: x in records ==> !IsIncludeOf(x, file)
    ensures forall t :: t in ts && t.isParent ==>
      exists x :: x in records && IsIncludeOf(x, file) && x.parent == t.path
    ensures forall x :: x in records && IsIncludeOf(x, file) ==> Target(x.parent, true) in ts
  {
    var parents := Parents(records, file);
    if |parents| > 0 then
      var ts := seq(|parents|, i requires 0 <= i < |parents| => Target(parents[i].parent, true));
      assert parents[0] in parents && ts[0].isParent;
      assert forall t :: t in ts ==> exists i :: 0 <= i < |parents| && t == Target(parents[i].parent, true);
      assert forall x :: x in records && IsIncludeOf(x, file) ==> Target(x.parent, true) in ts by {
        forall x | x in records && IsIncludeOf(x, file) ensures Target(x.parent, true) in ts {
          var i :| 0 <= i < |parents| && parents[i] == x;
          assert ts[i] == Target(x.parent, true);
        }
      }
      ts
    else [Target(file, false)]
  }

  /** With ancestor records, the calls are exactly one parent compile per
      record, in the order `get_file_parents` returns them. */
  lemma TargetsFollowParents(records: seq<Record>, file: Path)
    requires Parents(records, file) != []
    ensures var ps := Parents(records, file);
      var ts := Targets(records, file);
      |ts| == |ps| && forall i :: 0 <= i < |ts| ==> ts[i] == Target(ps[i].parent, true)
  {
  }

  /** The `compile_file` calls one after another, each seeing the ledger the
      previous one left; call `k` reads the clock as `clock(k)`. */
  function Run(ledger: seq<Stamp>, targets: seq<Target>, settings: Settings, clock: nat -> int, env: Env)
    : (r: (seq<Outcome>, seq<Stamp>))
    ensures |r.0| == |targets|
    decreases |targets|
  {
    if targets == [] then ([], ledger)
    else
      var n := |targets| - 1;
      var prev := Run(ledger, targets[..n], settings, clock, env);
      var step := CompileStep(prev.1, settings, targets[n].path, clock(n), env);
      (prev.0 + [step.0], step.1)
  }

  /** The callback for one change event: the outcomes and the new ledger. */
  function OnChange(records: seq<Record>, ledger: seq<Stamp>, file: Path, settings: Settings, clock: nat -> int,
                    env: Env): (seq<Outcome>, seq<Stamp>)
  {
    Run(ledger, Targets(records, file), settings, clock, env)
  }

  /** Running one more target appends its outcome and replaces the ledger. */
  lemma RunSnoc(ledger: seq<Stamp>, targets: seq<Target>, settings: Settings, clock: nat -> int, env: Env, i: nat)
    requires i < |targets|
    ensures var prev := Run(ledger, targets[..i], settings, clock, env);
      var step := CompileStep(prev.1, settings, targets[i].path, clock(i), env);
      Run(ledger, targets[..i + 1], settings, clock, env) == (prev.0 + [step.0], step.1)
  {
    assert targets[..i + 1][..i] == targets[..i];
  }

  /** The `i`-th call's outcome is `compile_file` of the `i`-th target, at the
      `i`-th clock reading, on the ledger the first `i` calls left. */
  lemma {:induction false} RunAt(ledger: seq<Stamp>, targets: seq<Target>, settings: Settings, clock: nat -> int,
                                 env: Env, i: nat)
    requires i < |targets|
    ensures Run(ledger, targets, settings, clock, env).0[i]
            == CompileStep(Run(ledger, targets[..i], settings, clock, env).1, settings, targets[i].path, clock(i), env).0
    ensures Run(ledger, targets[..i + 1], settings, clock, env).1
            == CompileStep(Run(ledger, targets[..i], settings, clock, env).1, settings, targets[i].path, clock(i), env).1
    decreases |targets|
  {
    RunSnoc(ledger, targets, settings, clock, env, i);
    var n := |targets| - 1;
    var init := targets[..n];
    if i < n {
      var prev := Run(ledger, init, settings, clock, env);
      var last := CompileStep(prev.1, settings, targets[n].path, clock(n), env);
      assert Run(ledger, targets, settings, clock, env) == (prev.0 + [last.0], last.1);
      assert (prev.0 + [last.0])[i] == prev.0[i];
      RunAt(ledger, init, settings, clock, env, i);
      assert init[..i] == targets[..i] && init[i] == targets[i];
    } else {
      assert targets[..i + 1] == targets;
    }
  }

  /** The ledger stays within its 20 entries through a whole event. */
  lemma {:induction false} RunBounded(ledger: seq<Stamp>, targets: seq<Target>, settings: Settings, clock: nat -> int,
                                      env: Env)
    requires |ledger| <= Capacity
    ensures |Run(ledger, targets, settings, clock, env).1| <= Capacity
    decreases |targets|
  {
    if targets != [] {
      RunBounded(ledger, targets[..|targets| - 1], settings, clock, env);
    }
  }

  /** Dispatch to parents: every outcome is that of compiling the parent of
      the matching ancestor record, as a parent compile. */
  lemma DispatchToParents(records: seq<Record>, ledger: seq<Stamp>, file: Path, settings: Settings,
                          clock: nat -> int, env: Env)
    requires Parents(records, file) != []
    ensures var ps := Parents(records, file);
      var ts := Targets(records, file);
      var r := OnChange(records, ledger, file, settings, clock, env);
      && |r.0| == |ps|
      && forall i :: 0 <= i < |ps| ==>
           ts[i] == Target(ps[i].parent, true)
           && r.0[i] == CompileStep(Run(ledger, ts[..i], settings, clock, env).1, settings, ps[i].parent, clock(i), env).0
  {
    var ts := Targets(records, file);
    TargetsFollowParents(records, file);
    forall i | 0 <= i < |ts| ensures OnChange(records, ledger, file, settings, clock, env).0[i]
        == CompileStep(Run(ledger, ts[..i], settings, clock, env).1, settings, ts[i].path, clock(i), env).0 {
      RunAt(ledger, ts, settings, clock, env, i);
    }
  }

  /** Dispatch to the file itself: without ancestor records the file is
      compiled exactly once, as a non-parent compile, at the first reading. */
  lemma DispatchToSelf(records: seq<Record>, ledger: seq<Stamp>, file: Path, settings: Settings,
                       clock: nat -> int, env: Env)
    requires forall x :: x in records ==> !IsIncludeOf(x, file)
    ensures Targets(records, file) == [Target(file, false)]
    ensures var step := CompileStep(ledger, settings, file, clock(0), env);
      OnChange(records, ledger, file, settings, clock, env) == ([step.0], step.1)
  {
    var ts := Targets(records, file);
    assert ts == [Target(file, false)];
    assert ts[..|ts| - 1] == [];
    var prev := Run(ledger, ts[..|ts| - 1], settings, clock, env);
    assert prev == ([], ledger);
    assert [] + [CompileStep(ledger, settings, file, clock(0), env).0] == [CompileStep(ledger, settings, file, clock(0), env).0];
  }

  /** An entry among the last `k` after the first `m` calls is still among
      the last `k + (n - m)` after the first `n`. */
  lemma {:induction false} RunKeepsTail(ledger: seq<Stamp>, targets: seq<Target>, settings: Settings,
                                        clock: nat -> int, env: Env, s: Stamp, k: nat, m: nat, n: nat)
    requires m <= n <= |targets| && k + (n - m) <= Capacity
    requires InTail(Run(ledger, targets[..m], settings, clock, env).1, s, k)
    ensures InTail(Run(ledger, targets[..n], settings, clock, env).1, s, k + (n - m))
    decreases n
  {
    if m < n {
      RunKeepsTail(ledger, targets, settings, clock, env, s, k, m, n - 1);
      RunSnoc(ledger, targets, settings, clock, env, n - 1);
      StepKeepsTail(Run(ledger, targets[..n - 1], settings, clock, env).1, s, k + (n - 1 - m), settings,
                    targets[n - 1].path, clock(n - 1), env);
    }
  }

  /** No file is compiled twice within one event when the two calls are at
      most `wait` ms apart and at most 20 calls apart: once a target has been
      attempted, the later call for the same path finds the fresh entry and is
      suppressed. */
  lemma AttemptedOncePerEvent(ledger: seq<Stamp>, targets: seq<Target>, settings: Settings, clock: nat -> int,
                              env: Env, i: nat, j: nat)
    requires i < j < |targets| && j - i <= Capacity
    requires targets[i].path == targets[j].path
    requires clock(j) - clock(i) <= settings.wait
    requires Attempted(Run(ledger, targets, settings, clock, env).0[i])
    ensures Run(ledger, targets, settings, clock, env).0[j] == Suppressed
  {
    var p := targets[i].path;
    var s := Stamp(p, clock(i));
    var before := Run(ledger, targets[..i], settings, clock, env).1;
    var after := Run(ledger, targets[..i + 1], settings, clock, env).1;
    RunAt(ledger, targets, settings, clock, env, i);
    var step := CompileStep(before, settings, p, clock(i), env);
    assert after == step.1 == KeepLast(before + [s]);
    assert after[|after| - 1] == s;
    assert InTail(after, s, 1);
    RunKeepsTail(ledger, targets, settings, clock, env, s, 1, i + 1, j);
    var atJ := Run(ledger, targets[..j], settings, clock, env).1;
    assert InTail(atJ, s, j - i);
    var pos :| 0 <= pos && |atJ| - (j - i) <= pos < |atJ| && atJ[pos] == s;
    assert IsRecentlyCompiled(atJ, p, clock(j), settings.wait);
    RunAt(ledger, targets, settings, clock, env, j);
  }

  /** The clock matters: two calls for the same existing file more than `wait`
      ms apart, with no recent entry for it before, are both attempted. */
  lemma AttemptedAgainAfterWindow(ledger: seq<Stamp>, t: Target, settings: Settings, clock: nat -> int, env: Env)
    requires env.onDisk(t.path)
    requires forall i :: 0 <= i < |ledger| && ledger[i].file == t.path ==>
      clock(0) - ledger[i].time > settings.wait && clock(1) - ledger[i].time > settings.wait
    requires clock(1) - clock(0) > settings.wait
    ensures var r := Run(ledger, [t, t], settings, clock, env).0;
      Attempted(r[0]) && Attempted(r[1])
  {
    var ts := [t, t];
    assert ts[..0] == [] && ts[0] == t && ts[1] == t;
    RunAt(ledger, ts, settings, clock, env, 0);
    WindowElapsed(ledger, settings, t.path, clock(0), env);
    StaleAfterAttempt(ledger, t.path, settings.wait, clock(0), clock(1));
    RunAt(ledger, ts, settings, clock, env, 1);
    WindowElapsed(Run(ledger, ts[..1], settings, clock, env).1, settings, t.path, clock(1), env);
  }

  /** Debounce, event by event, for a file without ancestor records and
      without an entry within the window at `t1`: a change whose call reads
      `t1` compiles it, a second change read no later than `t1 + wait` does
      not, and a third after the window does again. */
  lemma DebounceScenario(records: seq<Record>, ledger: seq<Stamp>, file: Path, settings: Settings, env: Env,
                         c1: nat -> int, c2: nat -> int, c3: nat -> int)
    requires forall x :: x in records ==> !IsIncludeOf(x, file)
    requires env.onDisk(file)
    requires forall i :: 0 <= i < |ledger| && ledger[i].file == file ==> c1(0) - ledger[i].time > settings.wait
    requires c1(0) <= c2(0) <= c1(0) + settings.wait < c3(0)
    ensures var e1 := OnChange(records, ledger, file, settings, c1, env);
      var e2 := OnChange(records, e1.1, file, settings, c2, env);
      var e3 := OnChange(records, e2.1, file, settings, c3, env);
      && |e1.0| == 1 && Attempted(e1.0[0])
      && e2 == ([Suppressed], e1.1)
      && |e3.0| == 1 && Attempted(e3.0[0])
  {
    var t1, t3 := c1(0), c3(0);
    var l1 := KeepLast(ledger + [Stamp(file, t1)]);
    var e1 := OnChange(records, ledger, file, settings, c1, env);
    assert e1.1 == l1 && |e1.0| == 1 && Attempted(e1.0[0]) by {
      DispatchToSelf(records, ledger, file, settings, c1, env);
      assert !IsRecentlyCompiled(ledger, file, t1, settings.wait);
    }
    var e2 := OnChange(records, l1, file, settings, c2, env);
    assert e2 == ([Suppressed], l1) by {
      DispatchToSelf(records, l1, file, settings, c2, env);
      DebounceWindow(ledger, settings, file, t1, c2(0), env, env);
    }
    var e3 := OnChange(records, l1, file, settings, c3, env);
    assert |e3.0| == 1 && Attempted(e3.0[0]) by {
      DispatchToSelf(records, l1, file, settings, c3, env);
      assert forall i :: 0 <= i < |ledger| && ledger[i].file == file ==> t3 - ledger[i].time > settings.wait;
      StaleAfterAttempt(ledger, file, settings.wait, t1, t3);
      WindowElapsed(l1, settings, file, t3, env);
    }
  }

  /** The graph after parsing one root file `a` whose text includes one file:
      its root record, then the include record under `target`.  A change to
      `file` compiles `a` when `file` is `target`, else only `file` itself. */
  lemma OneIncludeDispatch(a: Path, target: Path, file: Path)
    ensures var d := WriteInclude(Put(Empty(), SelfKey(a), Record(a, a, false)), a, target);
      Targets(Values(d), file) == if file == target then [Target(a, true)] else [Target(file, false)]
  {
    OneIncludeValues(a, target);
    OneIncludeTargets(a, target, file);
  }

  /** The calls for a change to `file`, given a root record for `a` and one include record under `target`. */
  lemma OneIncludeTargets(a: Path, target: Path, file: Path)
    ensures var records := [Record(a, a, false), Record(target, a, true)];
      Targets(records, file) == if file == target then [Target(a, true)] else [Target(file, false)]
  {
    var records := [Record(a, a, false), Record(target, a, true)];
    assert records[1..] == [Record(target, a, true)];
    if file == target {
      assert Parents(records, file) == [Record(target, a, true)];
      TargetsFollowParents(records, file);
    } else {
      assert Parents(records, file) == [];
    }
  }

  /** Parsing one root file `a` with one include: its root record, then the
      include record under `target`, parented to `a`. */
  lemma OneIncludeValues(a: Path, target: Path)
    ensures Values(WriteInclude(Put(Empty(), SelfKey(a), Record(a, a, false)), a, target))
            == [Record(a, a, false), Record(target, a, true)]
  {
    var d0 := Put(Empty(), SelfKey(a), Record(a, a, false));
    PutValues(Empty(), SelfKey(a), Record(a, a, false));
    assert Values(d0) == [Record(a, a, false)];
    assert Parents(Values(d0), a) == [];
    PutValues(d0, EdgeKey(target, a), Record(target, a, true));
  }

  /** As written: `include b` in /r/a.pug records /r/b, so a change to
      /r/b.pug compiles only /r/b.pug and leaves a.pug stale. */
  lemma BareIncludeMissesChange(dir: Path)
    requires Normal(dir)
    ensures var a := dir + ["a.pug"];
      var d := ParentizeStep(Put(Empty(), SelfKey(a), Record(a, a, false)), a, "b");
      Targets(Values(d), dir + ["b.pug"]) == [Target(dir + ["b.pug"], false)]
  {
    var a := dir + ["a.pug"];
    ExtensionlessIncludeKeepsBareName(dir);
    OneIncludeDispatch(a, IncludeTarget(a, "b"), dir + ["b.pug"]);
  }

  /** Corrected: with the target Pug loads, `include b` in /r/a.pug records
      /r/b.pug, and a change to /r/b.pug compiles a.pug. */
  lemma PugIncludeReachesParent(dir: Path)
    requires Normal(dir)
    ensures var a := dir + ["a.pug"];
      var d := PugParentizeStep(Put(Empty(), SelfKey(a), Record(a, a, false)), a, "b");
      Targets(Values(d), dir + ["b.pug"]) == [Target(a, true)]
  {
    var a := dir + ["a.pug"];
    ExtensionlessIncludeGetsPugExtension(dir);
    OneIncludeDispatch(a, PugIncludeTarget(a, "b"), dir + ["b.pug"]);
  }
}
