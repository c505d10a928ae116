/**
 * `TestBase.run_test`, `TestBase._handle_ecf`, `TestBase.run` and the `ECF`
 * decorator (gradepy/grade.py): running one test method against the master
 * and the student module, and error carried forward (ECF).
 *
 * A module is a table from names to function objects. The state of a `TestBase`
 * is `_bad_funcs`, the names confirmed wrong, and `ecf_mod`, a second copy
 * of the student module whose confirmed-wrong names are rebound to the
 * master's functions. A test method is a function from a module to the run
 * it produces (see `Reconcile`).
 */
module TestBase {
  import opened Basics
  import opened Values
  import opened Reconcile

  /** The identity of a function object bound in a module. */
  datatype Fn = Fn(id: string)

  type Module = map<string, Fn>

  /** The attributes `ECF.__call__` attaches: the names the method tests and
      the names it depends on. A method never decorated has neither. */
  datatype EcfMeta = EcfMeta(tests: set<string>, depends: set<string>)

  datatype TestMethod = TestMethod(name: string, meta: Option<EcfMeta>, run: Module -> Stream)

  /** `self._bad_funcs` and `self.ecf_mod`. */
  datatype Grader = Grader(bad: set<string>, ecfMod: Module)

  /** `self.master_mod` and `self.student_mod`. */
  datatype Modules = Modules(master: Module, student: Module)

  /** `run_test`: its log, and the returned `mistakes` with the `TestBase` state
      after ECF; or the exception that escaped. */
  datatype TestRun = Ran(log: seq<LogEntry>, flags: seq<Flag>, g: Grader) | Failed(log: seq<LogEntry>, why: Abort)

  /** `_handle_ecf`: its log and the new `TestBase` state, or an exception. */
  datatype EcfOutcome = Patched(log: seq<LogEntry>, g: Grader) | EcfFailed(log: seq<LogEntry>, why: Abort)

  /** `ECF(tests, depends)(func)`: records both lists as sets. */
  function Decorate(t: TestMethod, tests: seq<string>, depends: seq<string>): (r: TestMethod)
    ensures r.name == t.name && r.meta.Some?
    ensures forall n :: n in r.meta.value.tests <==> n in tests
    ensures forall n :: n in r.meta.value.depends <==> n in depends
    ensures forall md :: r.run(md) == t.run(md)
  {
    TestMethod(t.name, Some(EcfMeta(set n | n in tests, set n | n in depends)), t.run)
  }

  /** The state `TestBase.__init__` starts from: nothing confirmed wrong, and
      `ecf_mod` a fresh load of the student file. */
  function InitialGrader(student: Module): (r: Grader) {
    Grader({}, student)
  }

  /** Every confirmed-wrong name is bound to the master's function in
      `ecf_mod`. */
  ghost predicate Consistent(g: Grader, master: Module) {
    forall n :: n in g.bad ==> n in g.ecfMod && n in master && g.ecfMod[n] == master[n]
  }

  /** The end of `_handle_ecf`: `self._bad_funcs |= test.tests` and each name
      rebound in `ecf_mod` to the master's function; all other bindings kept. */
  function Patch(g: Grader, names: set<string>, master: Module): (r: Grader)
    requires names <= master.Keys
    ensures r.bad == g.bad + names
    ensures r.ecfMod.Keys == g.ecfMod.Keys + names
    ensures forall n :: n in names ==> r.ecfMod[n] == master[n]
    ensures forall n :: n in g.ecfMod && n !in names ==> r.ecfMod[n] == g.ecfMod[n]
  {
    Grader(g.bad + names, map n | n in g.ecfMod.Keys + names :: if n in names then master[n] else g.ecfMod[n])
  }

  /** Whether `_handle_ecf` reruns the method: the method is decorated, this
      is not already a retry, and one of its dependencies is confirmed wrong. */
  predicate RetryWanted(g: Grader, t: TestMethod, ecf: bool) {
    t.meta.Some? && !ecf && t.meta.value.depends * g.bad != {}
  }

  /** `run_test(test, ecf)`. The header is logged on the first try only; a
      retry compares against `ecf_mod` instead of the student module.
      `loop` selects `_compare` as written or corrected (see `Reconcile`). */
  function RunTest(md: Modules, g: Grader, t: TestMethod, ecf: bool, loop: Loop): (r: TestRun)
    decreases if ecf then 0 else 1, 1
  {
    var header := if ecf then [] else [Header(t.name)];
    var studentMod := if ecf then g.ecfMod else md.student;
    match CompareWith(loop, t.run(md.master), t.run(studentMod))
    case Aborted(l, why) => Failed(header + l, why)
    case Done(l, flags) =>
      if !AnyTruthy(flags) then Ran(header + l, flags, g)
      else
        match HandleEcf(md, g, t, ecf, loop)
        case EcfFailed(l2, why) => Failed(header + l + l2, why)
        case Patched(l2, g2) => Ran(header + l + l2, flags, g2)
  }

  /** `_handle_ecf(test, ecf)`: at most one retry (the retry passes
      `ecf=True`), then the tested names are patched whatever the retry gave. */
  function HandleEcf(md: Modules, g: Grader, t: TestMethod, ecf: bool, loop: Loop): (r: EcfOutcome)
    decreases if ecf then 0 else 1, 0
  {
    var retried :=
      if RetryWanted(g, t, ecf) then
        match RunTest(md, g, t, true, loop)
        case Failed(l, why) => EcfFailed([Retrying] + l, why)
        case Ran(l, flags, g2) => Patched([Retrying] + l + (if AnyTruthy(flags) then [] else [Solved]), g2)
      else Patched([], g);
    if retried.EcfFailed? || t.meta.None? then retried
    else if t.meta.value.tests <= md.master.Keys then
      Patched(retried.log, Patch(retried.g, t.meta.value.tests, md.master))
    else EcfFailed(retried.log, MissingMasterFunction)
  }

  datatype RunResult = Finished(log: seq<LogEntry>, g: Grader) | RunFailed(log: seq<LogEntry>, why: Abort)

  /** `run()`: every test method in order; an escaping exception ends it. */
  function RunAll(md: Modules, g: Grader, tests: seq<TestMethod>, loop: Loop): (r: RunResult)
    decreases |tests|
  {
    if |tests| == 0 then Finished([], g)
    else
      match RunTest(md, g, tests[0], false, loop)
      case Failed(l, why) => RunFailed(l, why)
      case Ran(l, _, g2) =>
        match RunAll(md, g2, tests[1..], loop)
        case Finished(l2, g3) => Finished(l + l2, g3)
        case RunFailed(l2, why) => RunFailed(l + l2, why)
  }

  /** The centred banner `'{:-^30}'.format(' ' + name + ' ')`: Python puts the
      smaller half of the padding on the left. */
  function Center(s: string, width: nat, fill: char): (r: string)
    ensures |r| == (if |s| >= width then |s| else width)
    ensures var left := (|r| - |s|) / 2;
            && r[left..left + |s|] == s
            && (forall k :: 0 <= k < left ==> r[k] == fill)
            && (forall k :: left + |s| <= k < |r| ==> r[k] == fill)
  {
    if |s| >= width then s
    else
      var pad := width - |s|;
      var r := Repeat(fill, pad / 2) + s + Repeat(fill, pad - pad / 2);
      assert r[pad / 2..pad / 2 + |s|] == s;
      r
  }

  /** The header `run_test` logs: a blank line, then the centred name. */
  function HeaderText(name: string): string {
    "\n" + Center(" " + name + " ", 30, '-')
  }

  /** The lines `TestBase.__init__` prints: two blank lines, a bar of 70 `=`,
      the `Automated testing for` line, and the bar again. */
  function OpeningLines(path: string, modName: string): seq<string> {
    ["", "", Repeat('=', 70), "Automated testing for " + path + "/" + modName + ".py", Repeat('=', 70)]
  }

  // ---------------------------------------------------------------------
  // Properties of run_test and ECF

  /** The log of a retry holds only Compare's messages: no header, no
      nested retry. */
  lemma RetryLogIsCompareLog(md: Modules, g: Grader, t: TestMethod, loop: Loop)
    ensures forall e :: e in RunTest(md, g, t, true, loop).log ==> IsReport(e) || e.Fatal?
  {
    var c := CompareWith(loop, t.run(md.master), t.run(g.ecfMod));
    assert !RetryWanted(g, t, true);
  }

  /** `_handle_ecf` logs no header: its only entries are the retry notice,
      the retry's comparison messages and "Problem solved!". */
  lemma EcfLogHasNoHeader(md: Modules, g: Grader, t: TestMethod, ecf: bool, loop: Loop)
    ensures forall e :: e in HandleEcf(md, g, t, ecf, loop).log ==> !e.Header?
  {
    if RetryWanted(g, t, ecf) {
      RetryLogIsCompareLog(md, g, t, loop);
      var r := RunTest(md, g, t, true, loop);
      var h := HandleEcf(md, g, t, ecf, loop);
      if r.Ran? {
        var tail := if AnyTruthy(r.flags) then [] else [Solved];
        assert h.log == [Retrying] + r.log + tail;
        forall e | e in h.log ensures !e.Header? {
          assert e == Retrying || e in r.log || e in tail;
        }
      } else {
        assert h.log == [Retrying] + r.log;
      }
    }
  }

  /** Only the first try writes the header, and it is the first line. */
  lemma HeaderOnlyOnFirstTry(md: Modules, g: Grader, t: TestMethod, ecf: bool, loop: Loop)
    ensures var log := RunTest(md, g, t, ecf, loop).log;
            forall k :: 0 <= k < |log| ==> (log[k].Header? <==> k == 0 && !ecf)
  {
    var studentMod := if ecf then g.ecfMod else md.student;
    var c := CompareWith(loop, t.run(md.master), t.run(studentMod));
    var header := if ecf then [] else [Header(t.name)];
    var log := RunTest(md, g, t, ecf, loop).log;
    RetryLogIsCompareLog(md, g, t, loop);
    if c.Done? && AnyTruthy(c.flags) {
      var h := HandleEcf(md, g, t, ecf, loop);
      EcfLogHasNoHeader(md, g, t, ecf, loop);
      assert log == header + c.log + h.log;
      forall k | 0 <= k < |log| ensures log[k].Header? <==> k == 0 && !ecf {
        if k >= |header| + |c.log| {
          assert log[k] in h.log;
        } else if k >= |header| {
          assert log[k] in c.log;
        }
      }
    } else {
      assert log == header + c.log;
      forall k | 0 <= k < |log| ensures log[k].Header? <==> k == 0 && !ecf {
        if k >= |header| {
          assert log[k] in c.log;
        }
      }
    }
  }

  /** "Trying again with helper functions corrected." is logged exactly when
      the first comparison had a mistake and `RetryWanted` holds. */
  lemma RetryIff(md: Modules, g: Grader, t: TestMethod, loop: Loop)
    requires CompareWith(loop, t.run(md.master), t.run(md.student)).Done?
    ensures var c := CompareWith(loop, t.run(md.master), t.run(md.student));
            Retrying in RunTest(md, g, t, false, loop).log <==> AnyTruthy(c.flags) && RetryWanted(g, t, false)
  {
    var c := CompareWith(loop, t.run(md.master), t.run(md.student));
    var log := RunTest(md, g, t, false, loop).log;
    assert Retrying !in c.log;
    if AnyTruthy(c.flags) {
      var h := HandleEcf(md, g, t, false, loop);
      assert log == [Header(t.name)] + c.log + h.log;
      if RetryWanted(g, t, false) {
        assert h.log[0] == Retrying;
      } else {
        assert h.log == [];
      }
    }
  }

  /** "Problem solved!" is logged exactly when the retry ran and flagged no
      mistake. */
  lemma SolvedIff(md: Modules, g: Grader, t: TestMethod, loop: Loop)
    requires CompareWith(loop, t.run(md.master), t.run(md.student)).Done?
    ensures var c := CompareWith(loop, t.run(md.master), t.run(md.student));
            var retry := RunTest(md, g, t, true, loop);
            Solved in RunTest(md, g, t, false, loop).log
            <==> AnyTruthy(c.flags) && RetryWanted(g, t, false) && retry.Ran? && !AnyTruthy(retry.flags)
  {
    var c := CompareWith(loop, t.run(md.master), t.run(md.student));
    var log := RunTest(md, g, t, false, loop).log;
    assert Solved !in c.log;
    if AnyTruthy(c.flags) {
      var h := HandleEcf(md, g, t, false, loop);
      assert log == [Header(t.name)] + c.log + h.log;
      SolvedInEcfIff(md, g, t, loop);
    } else {
      assert log == [Header(t.name)] + c.log;
    }
  }

  /** On the first try, `_handle_ecf` logs "Problem solved!" exactly when
      it retried and the retry flagged no mistake. */
  lemma SolvedInEcfIff(md: Modules, g: Grader, t: TestMethod, loop: Loop)
    ensures var retry := RunTest(md, g, t, true, loop);
            Solved in HandleEcf(md, g, t, false, loop).log
            <==> RetryWanted(g, t, false) && retry.Ran? && !AnyTruthy(retry.flags)
  {
    var h := HandleEcf(md, g, t, false, loop);
    var retry := RunTest(md, g, t, true, loop);
    RetryLogIsCompareLog(md, g, t, loop);
    assert Solved !in retry.log;
    if RetryWanted(g, t, false) {
      if retry.Ran? {
        assert h.log == [Retrying] + retry.log + (if AnyTruthy(retry.flags) then [] else [Solved]);
      } else {
        assert h.log == [Retrying] + retry.log;
      }
    } else {
      assert h.log == [];
    }
  }

  lemma PatchIdempotent(g: Grader, names: set<string>, master: Module)
    requires names <= master.Keys
    ensures Patch(Patch(g, names, master), names, master) == Patch(g, names, master)
  {
  }

  /** After `run_test` returns: a mistake in a decorated method confirms all
      its tested names wrong and patches them (once, whether or not a retry
      happened and whatever the retry found); otherwise nothing changes. */
  lemma RunTestUpdate(md: Modules, g: Grader, t: TestMethod, loop: Loop)
    requires RunTest(md, g, t, false, loop).Ran?
    ensures var r := RunTest(md, g, t, false, loop);
            r.g == if AnyTruthy(r.flags) && t.meta.Some? then Patch(g, t.meta.value.tests, md.master) else g
  {
    var r := RunTest(md, g, t, false, loop);
    if AnyTruthy(r.flags) && t.meta.Some? && RetryWanted(g, t, false) {
      var retry := RunTest(md, g, t, true, loop);
      assert retry.Ran?;
      if AnyTruthy(retry.flags) {
        assert retry.g == Patch(g, t.meta.value.tests, md.master);
        PatchIdempotent(g, t.meta.value.tests, md.master);
      }
    }
  }

  /** `_bad_funcs` never shrinks, and a confirmed name stays bound to the
      master's function in `ecf_mod`. */
  lemma RunTestKeepsConsistent(md: Modules, g: Grader, t: TestMethod, loop: Loop)
    requires Consistent(g, md.master)
    requires RunTest(md, g, t, false, loop).Ran?
    ensures g.bad <= RunTest(md, g, t, false, loop).g.bad
    ensures Consistent(RunTest(md, g, t, false, loop).g, md.master)
  {
    RunTestUpdate(md, g, t, loop);
  }

  lemma {:induction false} RunAllKeepsConsistent(md: Modules, g: Grader, tests: seq<TestMethod>, loop: Loop)
    requires Consistent(g, md.master)
    requires RunAll(md, g, tests, loop).Finished?
    ensures g.bad <= RunAll(md, g, tests, loop).g.bad
    ensures Consistent(RunAll(md, g, tests, loop).g, md.master)
    decreases |tests|
  {
    if |tests| > 0 {
      RunTestKeepsConsistent(md, g, tests[0], loop);
      RunAllKeepsConsistent(md, RunTest(md, g, tests[0], false, loop).g, tests[1..], loop);
    }
  }

  /** From the initial state, every name ever confirmed wrong in one
      submission's run is bound to the master's version at the end: a patch
      is never reverted. */
  lemma RunFromStartNeverReverts(md: Modules, tests: seq<TestMethod>, loop: Loop)
    requires RunAll(md, InitialGrader(md.student), tests, loop).Finished?
    ensures Consistent(RunAll(md, InitialGrader(md.student), tests, loop).g, md.master)
  {
    RunAllKeepsConsistent(md, InitialGrader(md.student), tests, loop);
  }

  /** A submission identical to the master: the method's log is the header
      alone, every flag is `None`, and the `TestBase` state is unchanged. */
  lemma EquivalentStudentIsClean(md: Modules, g: Grader, t: TestMethod, loop: Loop)
    requires md.student == md.master
    requires WellFormedRun(t.run(md.master))
    ensures RunTest(md, g, t, false, loop) == Ran([Header(t.name)], seq(|t.run(md.master).items|, _ => NoMistake), g)
  {
    CompareSelf(t.run(md.master));
    AsWrittenAgreesWithoutFault(t.run(md.master), t.run(md.master));
  }

  /** The discrepancy at the level of `run_test`: for an undecorated method
      whose student run raises while the master still has two or more items
      to give, `TestError` "too few" escapes `run_test` as written, and so
      ends `run()`; with the corrected loop the method ends normally after
      the fatal message and the state is unchanged. */
  lemma RunTestStudentFault(md: Modules, g: Grader, t: TestMethod, rest: seq<TestMethod>)
    requires t.meta.None?
    requires var m := t.run(md.master);
             var s := t.run(md.student);
             s.fault.Some? && |s.items| + 1 < |m.items| && StepsFlagged(m, s, 0, |s.items|)
    ensures RunTest(md, g, t, false, AsWritten).Failed?
    ensures RunTest(md, g, t, false, AsWritten).why == TooFew
    ensures RunAll(md, g, [t] + rest, AsWritten).RunFailed?
    ensures RunTest(md, g, t, false, Corrected).Ran?
    ensures RunTest(md, g, t, false, Corrected).g == g
  {
    AsWrittenFaultBecomesTooFew(t.run(md.master), t.run(md.student));
    assert ([t] + rest)[0] == t;
  }
}
