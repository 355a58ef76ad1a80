/**
 * The body of `main`: for every checkpoint version and every language,
 * set `best_version` and run `prepare_detie_benchie_format`; on a
 * `RuntimeError` retry the run once per registry name containing
 * "Triplet", writing the name into the shared configuration; any other
 * exception of the first run ends the whole batch.
 *
 * The configuration is one record threaded through the loop, so a model
 * name set by a fallback scan stays in place for every later task.
 */
module Orchestrator {
  import opened Results
  import opened PyStr
  import opened Annotations
  import opened Benchie

  /** `VERSIONS` (line 91) and the language list (line 94). */
  const Versions: seq<int> := [243, 263]
  const Languages: seq<String> := ["de", "en", "zh"]

  /** The substring a registry name needs to be a fallback candidate. */
  const TripletTag: String := "Triplet"

  /** One iteration of the nested loop. */
  datatype Task = Task(version: int, language: String)

  /** What the run depends on besides the configuration: the extractor
      back end, the lines of the gold file of each language, and the
      model registry `dir(models)` in its listing order. */
  datatype Env = Env(backend: Backend, gold: String -> seq<String>, registry: seq<String>)

  /** One call of `prepare_detie_benchie_format`, with the configuration it
      saw; `fallback` tells a scan candidate from the task's first run. */
  datatype Try = Try(task: Task, fallback: bool, cfg: Config, attempt: Attempt)

  /** The configuration left behind, every call made, and the exception
      that ended the batch, if any. */
  datatype Outcome = Outcome(cfg: Config, tries: seq<Try>, aborted: Option<Raised>)

  // ---------------------------------------------------------------------
  // The task order (lines 91-94)
  // ---------------------------------------------------------------------

  /** Versions in the outer loop, languages in the inner loop. */
  function TaskGrid(vs: seq<int>, ls: seq<String>): (ts: seq<Task>)
    ensures |ts| == |vs| * |ls|
  {
    if |vs| == 0 then []
    else seq(|ls|, i requires 0 <= i < |ls| => Task(vs[0], ls[i])) + TaskGrid(vs[1..], ls)
  }

  function Tasks(): seq<Task> {
    TaskGrid(Versions, Languages)
  }

  /** Task number `a * |ls| + b` pairs the `a`-th version with the `b`-th
      language: the outer loop is over versions, the inner over languages. */
  lemma {:induction false} TaskGridIndex(vs: seq<int>, ls: seq<String>, a: nat, b: nat)
    requires a < |vs| && b < |ls|
    ensures a * |ls| + b < |TaskGrid(vs, ls)|
    ensures TaskGrid(vs, ls)[a * |ls| + b] == Task(vs[a], ls[b])
    decreases a
  {
    if a > 0 {
      TaskGridIndex(vs[1..], ls, a - 1, b);
      assert a * |ls| + b == |ls| + ((a - 1) * |ls| + b);
    }
  }

  /** The six tasks, in the order the loops visit them. */
  lemma TasksInOrder()
    ensures Tasks() == [Task(243, "de"), Task(243, "en"), Task(243, "zh"),
                        Task(263, "de"), Task(263, "en"), Task(263, "zh")]
  {
    var ls := Languages;
    assert Versions[1..][1..] == [];
    assert TaskGrid(Versions[1..], ls) == [Task(263, "de"), Task(263, "en"), Task(263, "zh")] + TaskGrid(Versions[1..][1..], ls);
  }

  // ---------------------------------------------------------------------
  // One call, the fallback scan, one task (lines 95-115)
  // ---------------------------------------------------------------------

  /** `prepare_detie_benchie_format(test_set, save_path, cfg)`: the gold
      file of the task's language, the output path named after the
      configured version, `save_file` on and `most_common` off. */
  function Attempted(env: Env, task: Task, cfg: Config, fallback: bool): (t: Try)
    ensures t.task == task && t.cfg == cfg && t.fallback == fallback
  {
    Try(task, fallback, cfg,
        Prepare(env.backend, env.gold(task.language), SavePath(cfg.bestVersion, task.language), cfg, true, false))
  }

  /** Lines 106-115: every name containing "Triplet" becomes the model name
      and the run is retried; whatever a retry raises is swallowed and the
      scan goes on, successful or not. */
  function Scan(env: Env, task: Task, cfg: Config, names: seq<String>): (r: (Config, seq<Try>))
    decreases |names|
  {
    if |names| == 0 then (cfg, [])
    else if !Contains(names[0], TripletTag) then Scan(env, task, cfg, names[1..])
    else
      var cfg' := cfg.(name := names[0]);
      var rest := Scan(env, task, cfg', names[1..]);
      (rest.0, [Attempted(env, task, cfg', true)] + rest.1)
  }

  /** Lines 95-115 for one task: set the version, run, and on a
      `RuntimeError` scan the registry; any other exception escapes. */
  function RunTask(env: Env, task: Task, cfg: Config): Outcome {
    var cfg1 := cfg.(bestVersion := task.version);
    var primary := Attempted(env, task, cfg1, false);
    match primary.attempt.result
    case Ok(_) => Outcome(cfg1, [primary], None)
    case Err(e) =>
      if e.RuntimeError? then
        var scan := Scan(env, task, cfg1, env.registry);
        Outcome(scan.0, [primary] + scan.1, None)
      else
        Outcome(cfg1, [primary], Some(e))
  }

  /** The loop over tasks, threading the configuration; an escaping
      exception ends it. */
  function RunTasks(env: Env, tasks: seq<Task>, cfg: Config): Outcome
    decreases |tasks|
  {
    if |tasks| == 0 then Outcome(cfg, [], None)
    else
      var first := RunTask(env, tasks[0], cfg);
      if first.aborted.Some? then first
      else
        var rest := RunTasks(env, tasks[1..], first.cfg);
        Outcome(rest.cfg, first.tries + rest.tries, rest.aborted)
  }

  /** `main(cfg)`. */
  function Main(env: Env, cfg: Config): Outcome {
    RunTasks(env, Tasks(), cfg)
  }

  // ---------------------------------------------------------------------
  // The fallback candidates
  // ---------------------------------------------------------------------

  /** The registry names the scan retries with, in registry order. */
  function Candidates(names: seq<String>): (cs: seq<String>)
    ensures |cs| <= |names|
  {
    if |names| == 0 then []
    else (if Contains(names[0], TripletTag) then [names[0]] else []) + Candidates(names[1..])
  }

  /** A name is a candidate exactly when it is in the registry and contains
      "Triplet"; every other name is skipped. */
  lemma {:induction false} CandidatesMembership(names: seq<String>, x: String)
    ensures x in Candidates(names) <==> x in names && Contains(x, TripletTag)
    decreases |names|
  {
    if |names| > 0 {
      CandidatesMembership(names[1..], x);
      assert names == [names[0]] + names[1..];
    }
  }

  /** The scan retries once per candidate, in registry order, each time
      with the configuration changed in the model name only, and leaves
      the last candidate as the model name (or the name untouched when
      there is no candidate). */
  lemma {:induction false} ScanCorrect(env: Env, task: Task, cfg: Config, names: seq<String>)
    ensures var (cfg', tries) := Scan(env, task, cfg, names);
            var cs := Candidates(names);
            && |tries| == |cs|
            && (forall k :: 0 <= k < |cs| ==> tries[k] == Attempted(env, task, cfg.(name := cs[k]), true))
            && cfg' == if |cs| == 0 then cfg else cfg.(name := cs[|cs| - 1])
    decreases |names|
  {
    if |names| > 0 {
      if !Contains(names[0], TripletTag) {
        ScanCorrect(env, task, cfg, names[1..]);
      } else {
        var cfg1 := cfg.(name := names[0]);
        var rest := Scan(env, task, cfg1, names[1..]);
        var tries := Scan(env, task, cfg, names).1;
        ScanCorrect(env, task, cfg1, names[1..]);
        var cs := Candidates(names);
        var cs' := Candidates(names[1..]);
        assert cs == [names[0]] + cs';
        assert tries == [Attempted(env, task, cfg1, true)] + rest.1;
        forall k | 0 <= k < |cs|
          ensures tries[k] == Attempted(env, task, cfg.(name := cs[k]), true)
        {
          if k > 0 {
            assert tries[k] == rest.1[k - 1] && cs[k] == cs'[k - 1];
            assert cfg1.(name := cs[k]) == cfg.(name := cs[k]);
          }
        }
      }
    }
  }

  // ---------------------------------------------------------------------
  // One task
  // ---------------------------------------------------------------------

  /** A call that ends the batch: a task's first run raising anything but
      a `RuntimeError`. */
  predicate Aborting(t: Try) {
    !t.fallback && t.attempt.result.Err? && !t.attempt.result.error.RuntimeError?
  }

  /** A call made as the source makes it: for its task's language, with
      the version of its task in the configuration, to the output path of
      that version and language. */
  ghost predicate Faithful(env: Env, t: Try) {
    && t.cfg.bestVersion == t.task.version
    && t == Attempted(env, t.task, t.cfg, t.fallback)
  }

  ghost predicate AllFaithful(env: Env, tries: seq<Try>) {
    forall k :: 0 <= k < |tries| ==> Faithful(env, tries[k])
  }

  /** A faithful call reads the gold file of its own task's language and
      builds its extractor with `most_common` off: it returns exactly when
      that extractor is built, that file loads and every extraction
      returns, and its table then holds that file's reference rows. */
  lemma FaithfulResult(env: Env, t: Try)
    requires Faithful(env, t)
    ensures var gold := env.gold(t.task.language);
            var built := Build(env.backend, t.cfg, false).0;
            var r := t.attempt.result;
            && (r.Ok? <==> built.Ok? && LoadSentences(gold).Ok? && AllExtracted(built.value, LoadSentences(gold).value))
            && (r.Ok? ==> Rectangular(r.value) && Rows(r.value) == ExpectedRows(built.value, LoadSentences(gold).value))
  {
    PrepareResult(env.backend, env.gold(t.task.language), SavePath(t.task.version, t.task.language), t.cfg, true, false);
  }

  /** One task: the first run uses the incoming configuration with the
      task's version; a success ends the task; a `RuntimeError` is followed
      by one retry per candidate and never ends the batch; any other
      exception ends the batch and is what it ends with. */
  lemma RunTaskCorrect(env: Env, task: Task, cfg: Config)
    ensures var out := RunTask(env, task, cfg);
            var cfg1 := cfg.(bestVersion := task.version);
            var primary := Attempted(env, task, cfg1, false);
            var cs := Candidates(env.registry);
            && |out.tries| > 0 && out.tries[0] == primary
            && (out.aborted.Some? <==> Aborting(primary))
            && (out.aborted.Some? ==> out.aborted.value == primary.attempt.result.error)
            && (primary.attempt.result == Err(RuntimeError) ==>
                  && |out.tries| == 1 + |cs|
                  && (forall k :: 0 <= k < |cs| ==> out.tries[k + 1] == Attempted(env, task, cfg1.(name := cs[k]), true))
                  && out.cfg == if |cs| == 0 then cfg1 else cfg1.(name := cs[|cs| - 1]))
            && (primary.attempt.result != Err(RuntimeError) ==> out.tries == [primary] && out.cfg == cfg1)
  {
    var cfg1 := cfg.(bestVersion := task.version);
    ScanCorrect(env, task, cfg1, env.registry);
  }

  /** Every call of a task is made as the source makes it, and is for that
      task; only the first is not a fallback, and only it can end the
      batch. */
  lemma RunTaskFaithful(env: Env, task: Task, cfg: Config)
    ensures var out := RunTask(env, task, cfg);
            && |out.tries| > 0 && !out.tries[0].fallback
            && (forall k :: 0 <= k < |out.tries| ==> out.tries[k].task == task && Faithful(env, out.tries[k]))
            && (forall k :: 1 <= k < |out.tries| ==> out.tries[k].fallback)
            && (out.aborted.Some? ==> out.tries == [out.tries[0]] && Aborting(out.tries[0]))
  {
    var out := RunTask(env, task, cfg);
    var cfg1 := cfg.(bestVersion := task.version);
    var cs := Candidates(env.registry);
    RunTaskCorrect(env, task, cfg);
    forall k | 0 <= k < |out.tries|
      ensures out.tries[k].task == task && Faithful(env, out.tries[k])
      ensures k >= 1 ==> out.tries[k].fallback
    {
      if k >= 1 {
        assert out.tries[k] == Attempted(env, task, cfg1.(name := cs[k - 1]), true);
        assert out.tries[k].cfg.bestVersion == task.version;
      }
    }
  }

  // ---------------------------------------------------------------------
  // The whole batch
  // ---------------------------------------------------------------------

  /** The tasks whose first run was made, in order. */
  function StartedTasks(tries: seq<Try>): seq<Task> {
    if |tries| == 0 then []
    else (if tries[0].fallback then [] else [tries[0].task]) + StartedTasks(tries[1..])
  }

  lemma {:induction false} StartedTasksAppend(a: seq<Try>, b: seq<Try>)
    ensures StartedTasks(a + b) == StartedTasks(a) + StartedTasks(b)
    decreases |a|
  {
    if |a| > 0 {
      assert (a + b)[1..] == a[1..] + b;
      StartedTasksAppend(a[1..], b);
    } else {
      assert a + b == b;
    }
  }

  lemma {:induction false} StartedTasksOfTask(tries: seq<Try>, task: Task)
    requires |tries| > 0 && !tries[0].fallback && tries[0].task == task
    requires forall k :: 1 <= k < |tries| ==> tries[k].fallback
    ensures StartedTasks(tries) == [task]
  {
    FallbacksStartNothing(tries[1..]);
  }

  lemma {:induction false} FallbacksStartNothing(tries: seq<Try>)
    requires forall k :: 0 <= k < |tries| ==> tries[k].fallback
    ensures StartedTasks(tries) == []
    decreases |tries|
  {
    if |tries| > 0 {
      FallbacksStartNothing(tries[1..]);
    }
  }

  /** One step of the loop over tasks. */
  lemma RunTasksStep(env: Env, tasks: seq<Task>, cfg: Config)
    requires |tasks| > 0
    ensures var first := RunTask(env, tasks[0], cfg);
            var rest := RunTasks(env, tasks[1..], first.cfg);
            RunTasks(env, tasks, cfg)
            == if first.aborted.Some? then first else Outcome(rest.cfg, first.tries + rest.tries, rest.aborted)
  {
  }

  /** Every call of the batch is made as the source makes it, for one of
      the tasks. */
  lemma {:induction false} RunTasksFaithful(env: Env, tasks: seq<Task>, cfg: Config)
    ensures AllFaithful(env, RunTasks(env, tasks, cfg).tries)
    ensures var r := RunTasks(env, tasks, cfg);
            forall k :: 0 <= k < |r.tries| ==> r.tries[k].task in tasks
    decreases |tasks|
  {
    var r := RunTasks(env, tasks, cfg);
    if |tasks| > 0 {
      var first := RunTask(env, tasks[0], cfg);
      RunTasksStep(env, tasks, cfg);
      RunTaskFaithful(env, tasks[0], cfg);
      if first.aborted.None? {
        var rest := RunTasks(env, tasks[1..], first.cfg);
        RunTasksFaithful(env, tasks[1..], first.cfg);
        assert r.tries == first.tries + rest.tries;
        forall k | 0 <= k < |r.tries|
          ensures Faithful(env, r.tries[k]) && r.tries[k].task in tasks
        {
          if k >= |first.tries| {
            var t := rest.tries[k - |first.tries|];
            assert r.tries[k] == t;
            assert t.task in tasks[1..];
          } else {
            assert r.tries[k] == first.tries[k];
          }
        }
      }
    }
  }

  /** Some call in the list ends the batch. */
  predicate AnyAborting(tries: seq<Try>) {
    exists k :: 0 <= k < |tries| && Aborting(tries[k])
  }

  /** The list ends with a call that ends the batch by raising `e`. */
  predicate EndsAborting(tries: seq<Try>, e: Raised) {
    |tries| > 0 && Aborting(tries[|tries| - 1]) && tries[|tries| - 1].attempt.result.error == e
  }

  lemma AbortingConcat(a: seq<Try>, b: seq<Try>)
    ensures AnyAborting(a + b) <==> AnyAborting(a) || AnyAborting(b)
    ensures forall e :: |b| > 0 ==> (EndsAborting(a + b, e) <==> EndsAborting(b, e))
  {
    if AnyAborting(a + b) {
      var k :| 0 <= k < |a + b| && Aborting((a + b)[k]);
      if k >= |a| {
        assert (a + b)[k] == b[k - |a|];
      }
    }
    if AnyAborting(b) {
      var k :| 0 <= k < |b| && Aborting(b[k]);
      assert (a + b)[k + |a|] == b[k];
    }
    if AnyAborting(a) {
      var k :| 0 <= k < |a| && Aborting(a[k]);
      assert (a + b)[k] == a[k];
    }
    if |b| > 0 {
      assert (a + b)[|a + b| - 1] == b[|b| - 1];
    }
  }

  /** One task ends the batch exactly when its only call aborts. */
  lemma RunTaskAborts(env: Env, task: Task, cfg: Config)
    ensures var out := RunTask(env, task, cfg);
            && (out.aborted.Some? <==> AnyAborting(out.tries))
            && (out.aborted.Some? ==> EndsAborting(out.tries, out.aborted.value))
  {
    var out := RunTask(env, task, cfg);
    RunTaskFaithful(env, task, cfg);
    RunTaskCorrect(env, task, cfg);
    if out.aborted.None? {
      forall k | 0 <= k < |out.tries| ensures !Aborting(out.tries[k]) {
      }
    }
  }

  /** The batch ends early exactly when one of its calls aborts, and then
      that call is its last, and what it raised is what ends the batch. */
  lemma {:induction false} RunTasksAborts(env: Env, tasks: seq<Task>, cfg: Config)
    ensures var r := RunTasks(env, tasks, cfg);
            && (r.aborted.Some? <==> AnyAborting(r.tries))
            && (r.aborted.Some? ==> EndsAborting(r.tries, r.aborted.value))
    decreases |tasks|
  {
    if |tasks| > 0 {
      var first := RunTask(env, tasks[0], cfg);
      RunTasksStep(env, tasks, cfg);
      RunTaskAborts(env, tasks[0], cfg);
      if first.aborted.None? {
        var rest := RunTasks(env, tasks[1..], first.cfg);
        RunTasksAborts(env, tasks[1..], first.cfg);
        AbortingConcat(first.tries, rest.tries);
      }
    }
  }

  /** One task starts only itself: its first call is its only non-fallback. */
  lemma RunTaskStarts(env: Env, task: Task, cfg: Config)
    ensures StartedTasks(RunTask(env, task, cfg).tries) == [task]
  {
    RunTaskFaithful(env, task, cfg);
    StartedTasksOfTask(RunTask(env, task, cfg).tries, task);
  }

  /** The batch starts the tasks in order: all of them when nothing
      aborts, otherwise a non-empty prefix of them. */
  lemma {:induction false} RunTasksStarts(env: Env, tasks: seq<Task>, cfg: Config)
    ensures var r := RunTasks(env, tasks, cfg);
            && (r.aborted.None? ==> StartedTasks(r.tries) == tasks)
            && (r.aborted.Some? ==> exists n :: 0 < n <= |tasks| && StartedTasks(r.tries) == tasks[..n])
    decreases |tasks|
  {
    var r := RunTasks(env, tasks, cfg);
    if |tasks| > 0 {
      var first := RunTask(env, tasks[0], cfg);
      RunTasksStep(env, tasks, cfg);
      RunTaskStarts(env, tasks[0], cfg);
      if first.aborted.Some? {
        assert tasks[..1] == [tasks[0]];
      } else {
        var rest := RunTasks(env, tasks[1..], first.cfg);
        RunTasksStarts(env, tasks[1..], first.cfg);
        StartedCons(tasks, first.tries, rest.tries, rest.aborted.None?);
      }
    }
  }

  /** The tasks started by a first task followed by the rest of the loop. */
  lemma StartedCons(tasks: seq<Task>, a: seq<Try>, b: seq<Try>, done: bool)
    requires |tasks| > 0 && StartedTasks(a) == [tasks[0]]
    requires done ==> StartedTasks(b) == tasks[1..]
    requires !done ==> exists n :: 0 < n <= |tasks[1..]| && StartedTasks(b) == tasks[1..][..n]
    ensures done ==> StartedTasks(a + b) == tasks
    ensures !done ==> exists n :: 0 < n <= |tasks| && StartedTasks(a + b) == tasks[..n]
  {
    StartedTasksAppend(a, b);
    assert tasks == [tasks[0]] + tasks[1..];
    if !done {
      var n :| 0 < n <= |tasks[1..]| && StartedTasks(b) == tasks[1..][..n];
      assert tasks[..n + 1] == [tasks[0]] + tasks[1..][..n];
    }
  }

  /** `main`: the tasks are started in loop order, all six unless a first
      run raises something other than a `RuntimeError`, in which case the
      batch stops right after that call; every call is made as the source
      makes it. */
  lemma MainCorrect(env: Env, cfg: Config)
    ensures var r := Main(env, cfg);
            && AllFaithful(env, r.tries)
            && (forall k :: 0 <= k < |r.tries| ==> r.tries[k].task in Tasks())
            && (r.aborted.None? ==> StartedTasks(r.tries) == Tasks())
            && (r.aborted.Some? ==>
                  && EndsAborting(r.tries, r.aborted.value)
                  && exists n :: 0 < n <= |Tasks()| && StartedTasks(r.tries) == Tasks()[..n])
            && (r.aborted.Some? <==> AnyAborting(r.tries))
  {
    RunTasksFaithful(env, Tasks(), cfg);
    RunTasksAborts(env, Tasks(), cfg);
    RunTasksStarts(env, Tasks(), cfg);
  }

  /** The configuration a task starts from is the one the previous task
      left behind: a model name set by a fallback scan is kept. */
  lemma NameCarriesOver(env: Env, tasks: seq<Task>, cfg: Config)
    requires |tasks| >= 2
    requires RunTask(env, tasks[0], cfg).aborted.None?
    ensures var first := RunTask(env, tasks[0], cfg);
            var r := RunTasks(env, tasks, cfg);
            && |first.tries| < |r.tries|
            && r.tries[|first.tries|] == Attempted(env, tasks[1], first.cfg.(bestVersion := tasks[1].version), false)
  {
    var first := RunTask(env, tasks[0], cfg);
    var rest := RunTasks(env, tasks[1..], first.cfg);
    RunTaskCorrect(env, tasks[1], first.cfg);
    assert rest.tries[..|RunTask(env, tasks[1], first.cfg).tries|] == RunTask(env, tasks[1], first.cfg).tries;
  }

  // ---------------------------------------------------------------------
  // The output files
  // ---------------------------------------------------------------------

  /** Every write of the calls, in order. */
  function AllWrites(tries: seq<Try>): seq<(SavePath, Table)> {
    if |tries| == 0 then []
    else AllWrites(tries[..|tries| - 1]) + Writes(tries[|tries| - 1].attempt.events)
  }

  /** What a file holds after a sequence of writes: the table of the last
      write to it, if any. */
  function LastWriteTo(ws: seq<(SavePath, Table)>, path: SavePath): Option<Table> {
    if |ws| == 0 then None
    else if ws[|ws| - 1].0 == path then Some(ws[|ws| - 1].1)
    else LastWriteTo(ws[..|ws| - 1], path)
  }

  /** The table of the last call for `task` that returned, if any. */
  function LastSuccess(tries: seq<Try>, task: Task): Option<Table> {
    if |tries| == 0 then None
    else
      var t := tries[|tries| - 1];
      if t.task == task && t.attempt.result.Ok? then Some(t.attempt.result.value)
      else LastSuccess(tries[..|tries| - 1], task)
  }

  /** A faithful call writes once, to its task's path, exactly when it
      returns. */
  lemma FaithfulWrites(env: Env, t: Try)
    requires Faithful(env, t)
    ensures Writes(t.attempt.events)
            == if t.attempt.result.Ok? then [(SavePath(t.task.version, t.task.language), t.attempt.result.value)] else []
  {
    PrepareWrites(env.backend, env.gold(t.task.language), SavePath(t.task.version, t.task.language), t.cfg, true, false);
  }

  lemma LastWriteToAppend(ws: seq<(SavePath, Table)>, more: seq<(SavePath, Table)>, path: SavePath)
    requires |more| <= 1
    ensures LastWriteTo(ws + more, path)
            == if |more| == 1 && more[0].0 == path then Some(more[0].1) else LastWriteTo(ws, path)
  {
    if |more| == 1 {
      assert (ws + more)[..|ws + more| - 1] == ws;
    } else {
      assert ws + more == ws;
    }
  }

  /** After any sequence of faithful calls, the last write to a task's
      output path is the table of the last call for that task that
      returned; when none of a task's calls returned, these calls do not
      write its path. */
  lemma {:induction false} FileHoldsLastSuccess(env: Env, tries: seq<Try>, task: Task)
    requires AllFaithful(env, tries)
    ensures LastWriteTo(AllWrites(tries), SavePath(task.version, task.language)) == LastSuccess(tries, task)
    decreases |tries|
  {
    if |tries| > 0 {
      var init := tries[..|tries| - 1];
      var t := tries[|tries| - 1];
      FileHoldsLastSuccess(env, init, task);
      FaithfulWrites(env, t);
      LastWriteToAppend(AllWrites(init), Writes(t.attempt.events), SavePath(task.version, task.language));
    }
  }

  /** For the whole batch: each task's output file ends up holding the
      table of the last of its calls that returned, so after a fallback
      scan with several successes the last successful candidate's table is
      what remains. */
  lemma MainOutputFiles(env: Env, cfg: Config, task: Task)
    ensures var r := Main(env, cfg);
            LastWriteTo(AllWrites(r.tries), SavePath(task.version, task.language)) == LastSuccess(r.tries, task)
  {
    RunTasksOutputFiles(env, Tasks(), cfg, task);
  }

  lemma RunTasksOutputFiles(env: Env, tasks: seq<Task>, cfg: Config, task: Task)
    ensures var r := RunTasks(env, tasks, cfg);
            LastWriteTo(AllWrites(r.tries), SavePath(task.version, task.language)) == LastSuccess(r.tries, task)
  {
    RunTasksFaithful(env, tasks, cfg);
    FileHoldsLastSuccess(env, RunTasks(env, tasks, cfg).tries, task);
  }

  // ---------------------------------------------------------------------
  // Scenarios
  // ---------------------------------------------------------------------

  /** The configuration constructor raises, the path constructor
      succeeds, the gold file loads and every extraction returns: the task
      completes with the path-built extractor's rows and
      no fallback scan happens. */
  lemma SecondaryConstructionScenario(env: Env, task: Task, cfg: Config)
    requires var cfg1 := cfg.(bestVersion := task.version);
             var b := env.backend;
             var built := b.fromPaths(cfg1.name, cfg1.bestCkptPath, cfg1.bestHparamsPath, false);
             var parsed := LoadSentences(env.gold(task.language));
             && b.fromConfig(cfg1, false).Err? && built.Ok?
             && parsed.Ok? && AllExtracted(built.value, parsed.value)
    ensures var cfg1 := cfg.(bestVersion := task.version);
            var b := env.backend;
            var ex := b.fromPaths(cfg1.name, cfg1.bestCkptPath, cfg1.bestHparamsPath, false).value;
            var out := RunTask(env, task, cfg);
            && out.aborted.None? && |out.tries| == 1 && !out.tries[0].fallback
            && out.tries[0].attempt.result.Ok?
            && Rectangular(out.tries[0].attempt.result.value)
            && Rows(out.tries[0].attempt.result.value) == ExpectedRows(ex, LoadSentences(env.gold(task.language)).value)
  {
    var cfg1 := cfg.(bestVersion := task.version);
    RunTaskCorrect(env, task, cfg);
    PrepareResult(env.backend, env.gold(task.language), SavePath(cfg1.bestVersion, task.language), cfg1, true, false);
  }

  /** The first run raises a `RuntimeError` and these are the only two
      candidates: the first raises and the second returns. The task writes
      exactly once, the second candidate's table, and the batch goes on.
      With more candidates, every later one that returns writes again. */
  lemma SecondCandidateScenario(env: Env, task: Task, cfg: Config)
    requires var cfg1 := cfg.(bestVersion := task.version);
             var cs := Candidates(env.registry);
             && Attempted(env, task, cfg1, false).attempt.result == Err(RuntimeError)
             && |cs| == 2
             && Attempted(env, task, cfg1.(name := cs[0]), true).attempt.result.Err?
             && Attempted(env, task, cfg1.(name := cs[1]), true).attempt.result.Ok?
    ensures var out := RunTask(env, task, cfg);
            var cfg1 := cfg.(bestVersion := task.version);
            var second := Attempted(env, task, cfg1.(name := Candidates(env.registry)[1]), true);
            && out.aborted.None?
            && AllWrites(out.tries) == [(SavePath(task.version, task.language), second.attempt.result.value)]
  {
    var out := RunTask(env, task, cfg);
    var cfg1 := cfg.(bestVersion := task.version);
    var cs := Candidates(env.registry);
    RunTaskCorrect(env, task, cfg);
    RunTaskFaithful(env, task, cfg);
    assert out.tries == [out.tries[0], out.tries[1], out.tries[2]];
    var ts := out.tries;
    FaithfulWrites(env, ts[0]);
    FaithfulWrites(env, ts[1]);
    FaithfulWrites(env, ts[2]);
    assert ts[..2][..1] == ts[..1] && ts[..2][1] == ts[1];
    assert ts[..1][..0] == [] && ts[..1][0] == ts[0];
    assert AllWrites(ts[..1]) == [];
    assert AllWrites(ts[..2]) == [];
    assert AllWrites(ts) == AllWrites(ts[..2]) + Writes(ts[2].attempt.events);
  }

  /** The first run raises a `RuntimeError` and every candidate raises: the
      task writes nothing and the batch goes on to the next task. */
  lemma AllCandidatesFailScenario(env: Env, task: Task, cfg: Config)
    requires var cfg1 := cfg.(bestVersion := task.version);
             var cs := Candidates(env.registry);
             && Attempted(env, task, cfg1, false).attempt.result == Err(RuntimeError)
             && forall k :: 0 <= k < |cs| ==> Attempted(env, task, cfg1.(name := cs[k]), true).attempt.result.Err?
    ensures var out := RunTask(env, task, cfg);
            out.aborted.None? && AllWrites(out.tries) == []
  {
    var out := RunTask(env, task, cfg);
    RunTaskCorrect(env, task, cfg);
    RunTaskFaithful(env, task, cfg);
    forall k | 0 <= k < |out.tries| ensures out.tries[k].attempt.result.Err? {
      if k > 0 {
        assert out.tries[k] == Attempted(env, task, cfg.(bestVersion := task.version).(name := Candidates(env.registry)[k - 1]), true);
      }
    }
    NoSuccessNoWrites(env, out.tries);
  }

  lemma {:induction false} NoSuccessNoWrites(env: Env, tries: seq<Try>)
    requires forall k :: 0 <= k < |tries| ==> Faithful(env, tries[k]) && tries[k].attempt.result.Err?
    ensures AllWrites(tries) == []
    decreases |tries|
  {
    if |tries| > 0 {
      NoSuccessNoWrites(env, tries[..|tries| - 1]);
      FaithfulWrites(env, tries[|tries| - 1]);
    }
  }
}
