/**
 * `TestBase._compare`, `_check_new` and `_check_simple` (gradepy/grade.py):
 * walking the master run and the student run of one test method in
 * lockstep and classifying each positional pair.
 *
 * A run of a test method is a generator. Here it is the finite sequence of
 * items it yields, followed either by exhaustion (`StopIteration`) or by an
 * exception raised outside any Check (`fault`, its traceback text). A
 * Python generator that has raised is finished: every later `next` on it
 * stops. Checks arrive already evaluated.
 */
module Reconcile {
  import opened Basics
  import opened Values
  import Traceback

  /** `Check.val`: the value of the expression, or the recorded
      `StudentException` (its traceback text) if evaluating it raised. */
  datatype Outcome = Returned(v: Value) | Raised(trace: string)

  /** An evaluated Check: the expression text, its outcome, and the note
      (already `'\n Note: ...'` or empty). */
  datatype Check = Check(expr: string, val: Outcome, note: string)

  /** What a test method yields: a Check, a `(value, name)` tuple, or `None`. */
  datatype Item = CheckItem(check: Check) | PairItem(value: Value, name: string) | NoneItem

  datatype Stream = Stream(items: seq<Item>, fault: Option<string>)

  /** One entry of `mistakes`: `None`, `'exception'` or `'incorrect'`. */
  datatype Flag = NoMistake | Exception | Incorrect

  predicate Truthy(f: Flag) {
    f != NoMistake
  }

  /** Python's `any(mistakes)`. */
  predicate AnyTruthy(flags: seq<Flag>) {
    exists k :: 0 <= k < |flags| && Truthy(flags[k])
  }

  /** The messages `TestBase` logs, as structured entries. */
  datatype LogEntry =
    | Header(test: string)                                               // run_test banner
    | CheckRaised(expr: string, expected: Value, shown: string, note: string)
    | CheckIncorrect(expr: string, expected: Value, got: Value, note: string)
    | SimpleMismatch(name: string, expected: Value, got: Value)
    | Fatal(shown: string)                                               // student generator raised
    | Retrying                                                           // "Trying again with ..."
    | Solved                                                             // "Problem solved!"

  /** Entries that report a wrong student result. */
  predicate IsReport(e: LogEntry) {
    e.CheckRaised? || e.CheckIncorrect? || e.SimpleMismatch?
  }

  /** Why a run stops with an exception escaping `_compare` or `_handle_ecf`.
      The first three are `TestError`s; the rest are the Python exceptions the
      code does not catch. */
  datatype Abort =
    | TooMany                          // student yielded an extra non-None item
    | TooFew                           // student stopped while master had an item
    | MasterCheckRaised(shown: string) // a master Check recorded an exception
    | MasterRaised(trace: string)      // the master generator itself raised
    | StudentRaisedAtEnd(trace: string)// `next(student_out, None)` re-raised
    | NotACheck                        // master Check paired with a non-Check (AttributeError)
    | NotAPair                         // tuple unpacking of a non-tuple (TypeError)
    | NameMismatch(expected: string, got: string) // `assert name == name2`
    | MissingMasterFunction            // `getattr(self.master_mod, name)` failed (AttributeError)
    | MessageEncodeFailed              // `str.format` of a non-ASCII `unicode` (UnicodeEncodeError)

  predicate IsTestError(a: Abort) {
    a.TooMany? || a.TooFew? || a.MasterCheckRaised?
  }

  /** `StudentException(e, skip=4)` for a Check, `skip=3` for the generator. */
  const CheckSkip: nat := 4
  const StreamSkip: nat := 3

  /** The outcome of comparing one positional pair. */
  datatype Step = Flagged(flag: Flag, log: seq<LogEntry>) | Stop(why: Abort)

  /** `_check_new`: a student exception is reported before any value is
      compared; otherwise the default comparison decides. */
  function CheckNew(m: Check, s: Check): (r: Step)
    requires m.val.Returned?
    ensures r.Flagged?
    ensures r.flag == Exception <==> s.val.Raised?
    ensures r.flag == Incorrect <==> s.val.Returned? && Differs(m.val.v, s.val.v)
    ensures r.flag == NoMistake <==> r.log == []
    ensures forall e :: e in r.log ==> IsReport(e)
  {
    if s.val.Raised? then
      Flagged(Exception, [CheckRaised(m.expr, m.val.v, Traceback.Slice(s.val.trace, CheckSkip), s.note)])
    else if Differs(m.val.v, s.val.v) then
      Flagged(Incorrect, [CheckIncorrect(m.expr, m.val.v, s.val.v, s.note)])
    else
      Flagged(NoMistake, [])
  }

  /** `_check_simple`: tuples are reported but always give a `None` flag.
      The report is built with `str.format`, so a differing pair in which
      either value is a non-ASCII `unicode` raises instead of logging. */
  function CheckSimple(mv: Value, mn: string, sv: Value, sn: string): (r: Step)
    ensures r.Stop? <==> mn != sn || (Differs(mv, sv) && !(FormatsIntoStr(mv) && FormatsIntoStr(sv)))
    ensures r.Stop? ==> r.why == if mn != sn then NameMismatch(mn, sn) else MessageEncodeFailed
    ensures r.Flagged? ==> r.flag == NoMistake && (r.log != [] <==> Differs(mv, sv))
    ensures forall e :: r.Flagged? && e in r.log ==> IsReport(e)
  {
    if mn != sn then Stop(NameMismatch(mn, sn))
    else if !Differs(mv, sv) then Flagged(NoMistake, [])
    else if FormatsIntoStr(mv) && FormatsIntoStr(sv) then Flagged(NoMistake, [SimpleMismatch(mn, mv, sv)])
    else Stop(MessageEncodeFailed)
  }

  /** `u'caf\xe9'` against `u'cafe'` in a tuple: the values differ, and
      formatting the report raises instead of logging it. Two differing
      ASCII-only `unicode` values, or a list holding a non-ASCII `unicode`,
      are logged. */
  lemma CheckSimpleNonAsciiRaises()
    ensures CheckSimple(UnicodeV("caf\U{e9}"), "x", UnicodeV("cafe"), "x") == Stop(MessageEncodeFailed)
    ensures CheckSimple(UnicodeV("cafe"), "x", UnicodeV("cafx"), "x").Flagged?
    ensures CheckSimple(ListV([UnicodeV("caf\U{e9}")]), "x", ListV([]), "x").Flagged?
  {
  }

  /** The `else:` branch of `_compare` for a master item and the student item
      yielded at the same position. */
  function PairStep(m: Item, s: Item): (r: Step) {
    match m
    case CheckItem(mc) =>
      if mc.val.Raised? then Stop(MasterCheckRaised(Traceback.Slice(mc.val.trace, CheckSkip)))
      else if !s.CheckItem? then Stop(NotACheck)
      else CheckNew(mc, s.check)
    case PairItem(mv, mn) =>
      if s.PairItem? then CheckSimple(mv, mn, s.value, s.name) else Stop(NotAPair)
    case NoneItem => Stop(NotAPair)
  }

  /** `_compare`'s result: the messages it logged and either the returned
      `mistakes` list or the exception that escaped. */
  datatype Compared = Done(log: seq<LogEntry>, flags: seq<Flag>) | Aborted(log: seq<LogEntry>, why: Abort)

  function PrependStep(l: seq<LogEntry>, f: Flag, r: Compared): (res: Compared) {
    match r
    case Done(log, flags) => Done(l + log, [f] + flags)
    case Aborted(log, why) => Aborted(l + log, why)
  }

  function PrependLog(l: seq<LogEntry>, r: Compared): (res: Compared) {
    match r
    case Done(log, flags) => Done(l + log, flags)
    case Aborted(log, why) => Aborted(l + log, why)
  }

  /** Number of positions at which both runs yielded an item. */
  function Paired(m: Stream, s: Stream): nat {
    if |m.items| <= |s.items| then |m.items| else |s.items|
  }

  /** What `_compare` does once the master runs out of items (first case), and
      what it does when the student runs out first. */
  function Tail(m: Stream, s: Stream, i: nat): (r: Compared)
    requires i == |m.items| <= |s.items| || i == |s.items| < |m.items|
  {
    if i == |m.items| then
      if m.fault.Some? then Aborted([], MasterRaised(m.fault.value))
      else if i < |s.items| then
        if s.items[i].NoneItem? then Done([], []) else Aborted([], TooMany)
      else if s.fault.Some? then Aborted([], StudentRaisedAtEnd(s.fault.value))
      else Done([], [])
    else if s.fault.Some? then
      Done([Fatal(Traceback.Slice(s.fault.value, StreamSkip))], [])
    else Aborted([], TooFew)
  }

  /** `_compare` from position `i` on, with the fault in the student run
      ending the test (see Findings in README.md): pairing is positional,
      and each pair whose student item was yielded contributes exactly the
      flag `PairStep` gives it. */
  function CompareFrom(m: Stream, s: Stream, i: nat): (r: Compared)
    requires i <= Paired(m, s)
    ensures r.Done? ==> |r.flags| == Paired(m, s) - i
    ensures r.Done? ==> forall j :: i <= j < i + |r.flags| ==>
              PairStep(m.items[j], s.items[j]).Flagged?
              && PairStep(m.items[j], s.items[j]).flag == r.flags[j - i]
    ensures forall e :: e in r.log ==> IsReport(e) || e.Fatal?
    decreases |m.items| - i
  {
    if i == |m.items| || i == |s.items| then
      TailShape(m, s, i);
      Tail(m, s, i)
    else
      match PairStep(m.items[i], s.items[i])
      case Stop(why) => Aborted([], why)
      case Flagged(f, l) =>
        var rest := CompareFrom(m, s, i + 1);
        PairStepReports(m.items[i], s.items[i]);
        PrependStepShape(l, f, rest);
        PrependStep(l, f, rest)
  }

  /** A pair that gives a flag logs only reports. */
  lemma PairStepReports(m: Item, s: Item)
    ensures PairStep(m, s).Flagged? ==> forall e :: e in PairStep(m, s).log ==> IsReport(e)
  {
  }

  /** Prepending a step keeps the outcome, puts the flag first and adds the
      step's messages in front. */
  lemma PrependStepShape(l: seq<LogEntry>, f: Flag, r: Compared)
    ensures PrependStep(l, f, r).Done? <==> r.Done?
    ensures r.Done? ==> PrependStep(l, f, r).flags == [f] + r.flags
    ensures forall e :: e in PrependStep(l, f, r).log ==> e in l || e in r.log
  {
  }

  /** The end of the comparison adds no flag and logs at most the fault. */
  lemma TailShape(m: Stream, s: Stream, i: nat)
    requires i == |m.items| <= |s.items| || i == |s.items| < |m.items|
    ensures Tail(m, s, i).Done? ==> Tail(m, s, i).flags == []
    ensures forall e :: e in Tail(m, s, i).log ==> e.Fatal?
  {
  }

  function Compare(m: Stream, s: Stream): (r: Compared) {
    CompareFrom(m, s, 0)
  }

  /** `_compare` exactly as written: after the student generator raises, the
      loop goes on, the finished generator stops on the next `next`, and a
      master with another item then raises "too few". */
  function CompareAsWrittenFrom(m: Stream, s: Stream, i: nat, finished: bool): (r: Compared)
    requires i <= |m.items|
    requires !finished ==> i <= |s.items|
    ensures forall e :: e in r.log ==> IsReport(e) || e.Fatal?
    decreases |m.items| - i
  {
    if i == |m.items| then
      if m.fault.Some? then Aborted([], MasterRaised(m.fault.value))
      else if finished then Done([], [])
      else
        TailShape(m, s, i);
        Tail(m, s, i)
    else if finished then Aborted([], TooFew)
    else if i == |s.items| then
      if s.fault.Some? then
        PrependLog([Fatal(Traceback.Slice(s.fault.value, StreamSkip))], CompareAsWrittenFrom(m, s, i + 1, true))
      else Aborted([], TooFew)
    else
      match PairStep(m.items[i], s.items[i])
      case Stop(why) => Aborted([], why)
      case Flagged(f, l) =>
        var rest := CompareAsWrittenFrom(m, s, i + 1, false);
        PairStepReports(m.items[i], s.items[i]);
        PrependStepShape(l, f, rest);
        PrependStep(l, f, rest)
  }

  function CompareAsWritten(m: Stream, s: Stream): (r: Compared) {
    CompareAsWrittenFrom(m, s, 0, false)
  }

  /** Which `_compare` loop a run uses: the code as written, or the loop
      corrected so that a student fault ends the test. */
  datatype Loop = AsWritten | Corrected

  /** Either loop logs only reports of wrong student results and the fatal
      student exception. */
  function CompareWith(loop: Loop, m: Stream, s: Stream): (r: Compared)
    ensures forall e :: e in r.log ==> IsReport(e) || e.Fatal?
  {
    match loop
    case AsWritten => CompareAsWritten(m, s)
    case Corrected => Compare(m, s)
  }

  // ---------------------------------------------------------------------
  // Properties of the reconciliation

  /** Every pair in positions `[from, to)` yields a flag rather than stopping. */
  ghost predicate StepsFlagged(m: Stream, s: Stream, from: nat, to: nat)
    requires to <= Paired(m, s)
  {
    forall k :: from <= k < to ==> PairStep(m.items[k], s.items[k]).Flagged?
  }

  /** What must hold after the last pair for `_compare` to return normally:
      equal lengths and no fault; or an extra student `None` after a clean
      master; or a student fault cutting the student run short. */
  ghost predicate TailOk(m: Stream, s: Stream) {
    if |m.items| < |s.items| then m.fault.None? && s.items[|m.items|].NoneItem?
    else if |m.items| == |s.items| then m.fault.None? && s.fault.None?
    else s.fault.Some?
  }

  lemma {:induction false} CompareFromDoneIff(m: Stream, s: Stream, i: nat)
    requires i <= Paired(m, s)
    ensures CompareFrom(m, s, i).Done? <==> StepsFlagged(m, s, i, Paired(m, s)) && TailOk(m, s)
    decreases |m.items| - i
  {
    if i < |m.items| && i < |s.items| {
      CompareFromDoneIff(m, s, i + 1);
      var step := PairStep(m.items[i], s.items[i]);
      if step.Flagged? {
        PrependStepShape(step.log, step.flag, CompareFrom(m, s, i + 1));
        assert StepsFlagged(m, s, i, Paired(m, s)) <==> StepsFlagged(m, s, i + 1, Paired(m, s));
      } else {
        assert !StepsFlagged(m, s, i, Paired(m, s));
      }
    }
  }

  /** `_compare` returns normally exactly when every pair is comparable and
      the runs end in step (or the student run faults). */
  lemma CompareDoneIff(m: Stream, s: Stream)
    ensures Compare(m, s).Done? <==> StepsFlagged(m, s, 0, Paired(m, s)) && TailOk(m, s)
  {
    CompareFromDoneIff(m, s, 0);
  }

  /** Every position before the first failing pair is compared, and the
      first failing pair decides the exception. */
  lemma {:induction false} CompareFromStopsAtFirstBadPair(m: Stream, s: Stream, i: nat, k: nat)
    requires i <= k < Paired(m, s)
    requires StepsFlagged(m, s, i, k)
    requires PairStep(m.items[k], s.items[k]).Stop?
    ensures CompareFrom(m, s, i).Aborted?
    ensures CompareFrom(m, s, i).why == PairStep(m.items[k], s.items[k]).why
    decreases k - i
  {
    if i < k {
      CompareFromStopsAtFirstBadPair(m, s, i + 1, k);
    }
  }

  lemma CompareStopsAtFirstBadPair(m: Stream, s: Stream, k: nat)
    requires k < Paired(m, s)
    requires StepsFlagged(m, s, 0, k)
    requires PairStep(m.items[k], s.items[k]).Stop?
    ensures Compare(m, s).Aborted? && Compare(m, s).why == PairStep(m.items[k], s.items[k]).why
  {
    CompareFromStopsAtFirstBadPair(m, s, 0, k);
  }

  /** A master Check that recorded an exception at a position the student
      reached raises `TestError` (unless an earlier pair already failed) and
      is never counted as a student mistake. */
  lemma MasterFaultIsTestError(m: Stream, s: Stream, k: nat)
    requires k < Paired(m, s)
    requires StepsFlagged(m, s, 0, k)
    requires m.items[k].CheckItem? && m.items[k].check.val.Raised?
    ensures Compare(m, s).Aborted? && IsTestError(Compare(m, s).why)
    ensures Compare(m, s).why == MasterCheckRaised(Traceback.Slice(m.items[k].check.val.trace, CheckSkip))
  {
    CompareStopsAtFirstBadPair(m, s, k);
  }

  lemma MasterFaultNeverFlagged(m: Stream, s: Stream)
    requires Compare(m, s).Done?
    ensures forall k :: 0 <= k < Paired(m, s) && m.items[k].CheckItem? ==> m.items[k].check.val.Returned?
  {
    var r := Compare(m, s);
    forall k | 0 <= k < Paired(m, s) && m.items[k].CheckItem?
      ensures m.items[k].check.val.Returned?
    {
      assert PairStep(m.items[k], s.items[k]).Flagged?;
    }
  }

  /** The student run is too short: `TestError` "too few" exactly when all
      pairs compare, the student stops cleanly, and the master has more. */
  lemma {:induction false} CompareFromTooFewIff(m: Stream, s: Stream, i: nat)
    requires i <= Paired(m, s)
    ensures CompareFrom(m, s, i).Aborted? && CompareFrom(m, s, i).why == TooFew
            <==> StepsFlagged(m, s, i, Paired(m, s)) && |s.items| < |m.items| && s.fault.None?
    decreases |m.items| - i
  {
    if i < |m.items| && i < |s.items| {
      CompareFromTooFewIff(m, s, i + 1);
    }
  }

  lemma CompareTooFewIff(m: Stream, s: Stream)
    ensures Compare(m, s).Aborted? && Compare(m, s).why == TooFew
            <==> StepsFlagged(m, s, 0, Paired(m, s)) && |s.items| < |m.items| && s.fault.None?
  {
    CompareFromTooFewIff(m, s, 0);
  }

  /** The student run is too long: `TestError` "too many" exactly when all
      pairs compare, the master ends cleanly, and the student's next item is
      not `None`. */
  lemma {:induction false} CompareFromTooManyIff(m: Stream, s: Stream, i: nat)
    requires i <= Paired(m, s)
    ensures CompareFrom(m, s, i).Aborted? && CompareFrom(m, s, i).why == TooMany
            <==> StepsFlagged(m, s, i, Paired(m, s)) && |m.items| < |s.items| && m.fault.None?
                 && !s.items[|m.items|].NoneItem?
    decreases |m.items| - i
  {
    if i < |m.items| && i < |s.items| {
      CompareFromTooManyIff(m, s, i + 1);
    }
  }

  lemma CompareTooManyIff(m: Stream, s: Stream)
    ensures Compare(m, s).Aborted? && Compare(m, s).why == TooMany
            <==> StepsFlagged(m, s, 0, Paired(m, s)) && |m.items| < |s.items| && m.fault.None?
                 && !s.items[|m.items|].NoneItem?
  {
    CompareFromTooManyIff(m, s, 0);
  }

  predicate HasFatal(log: seq<LogEntry>) {
    exists k :: 0 <= k < |log| && log[k].Fatal?
  }

  lemma HasFatalAppend(a: seq<LogEntry>, b: seq<LogEntry>)
    requires forall k :: 0 <= k < |a| ==> IsReport(a[k])
    ensures HasFatal(a + b) <==> HasFatal(b)
    ensures |b| > 0 ==> (a + b)[|a + b| - 1] == b[|b| - 1]
  {
    if HasFatal(a + b) {
      var k :| 0 <= k < |a + b| && (a + b)[k].Fatal?;
      assert (a + b)[k] == b[k - |a|];
    }
    if HasFatal(b) {
      var k :| 0 <= k < |b| && b[k].Fatal?;
      assert (a + b)[|a| + k].Fatal?;
    }
  }

  /** "Fatal exception in student code" is logged, as the last message, exactly
      when the student run faulted before the master ran out. */
  lemma {:induction false} CompareFromFatalIff(m: Stream, s: Stream, i: nat)
    requires i <= Paired(m, s)
    requires CompareFrom(m, s, i).Done?
    ensures HasFatal(CompareFrom(m, s, i).log) <==> |s.items| < |m.items|
    ensures var log := CompareFrom(m, s, i).log;
            |s.items| < |m.items| ==>
              s.fault.Some? && |log| > 0 && log[|log| - 1] == Fatal(Traceback.Slice(s.fault.value, StreamSkip))
    decreases |m.items| - i
  {
    if i < |m.items| && i < |s.items| {
      var st := PairStep(m.items[i], s.items[i]);
      assert st.Flagged?;
      CompareFromFatalIff(m, s, i + 1);
      var rest := CompareFrom(m, s, i + 1).log;
      assert CompareFrom(m, s, i).log == st.log + rest;
      assert forall k :: 0 <= k < |st.log| ==> IsReport(st.log[k]) by {
        match m.items[i]
        case CheckItem(mc) =>
        case PairItem(mv, mn) =>
        case NoneItem =>
      }
      HasFatalAppend(st.log, rest);
    } else if i < |m.items| {
      assert CompareFrom(m, s, i).log[0].Fatal?;
    } else {
      assert CompareFrom(m, s, i).log == [];
    }
  }

  lemma CompareFatalIff(m: Stream, s: Stream)
    requires Compare(m, s).Done?
    ensures HasFatal(Compare(m, s).log) <==> |s.items| < |m.items|
    ensures var log := Compare(m, s).log;
            |s.items| < |m.items| ==>
              s.fault.Some? && |log| > 0 && log[|log| - 1] == Fatal(Traceback.Slice(s.fault.value, StreamSkip))
  {
    CompareFromFatalIff(m, s, 0);
  }

  /** A run the master could have produced: it ends cleanly and yields only
      Checks that returned a value and `(value, name)` tuples, none holding
      NaN. */
  ghost predicate WellFormedRun(m: Stream) {
    && m.fault.None?
    && forall k :: 0 <= k < |m.items| ==>
         || (m.items[k].CheckItem? && m.items[k].check.val.Returned? && !HasNaN(m.items[k].check.val.v))
         || (m.items[k].PairItem? && !HasNaN(m.items[k].value))
  }

  /** A Check whose value holds NaN is flagged even against an identical
      student Check, since NaN is unequal to itself. */
  lemma NaNCheckAgainstItself(c: Check)
    requires c.val.Returned? && HasNaN(c.val.v)
    ensures CheckNew(c, c).flag == Incorrect
  {
    PyEqReflexive(c.val.v);
  }

  /** A submission that behaves exactly like the master produces the master's
      run, and comparing a well-formed run with itself logs nothing and flags
      no mistake. */
  lemma {:induction false} CompareFromSelf(m: Stream, i: nat)
    requires WellFormedRun(m)
    requires i <= |m.items|
    ensures CompareFrom(m, m, i) == Done([], seq(|m.items| - i, _ => NoMistake))
    decreases |m.items| - i
  {
    if i < |m.items| {
      CompareFromSelf(m, i + 1);
      match m.items[i]
      case CheckItem(c) => PyEqReflexive(c.val.v);
      case PairItem(v, n) => PyEqReflexive(v);
      assert [NoMistake] + seq(|m.items| - (i + 1), _ => NoMistake) == seq(|m.items| - i, _ => NoMistake);
    }
  }

  lemma CompareSelf(m: Stream)
    requires WellFormedRun(m)
    ensures Compare(m, m) == Done([], seq(|m.items|, _ => NoMistake))
    ensures !AnyTruthy(Compare(m, m).flags)
  {
    CompareFromSelf(m, 0);
  }

  /** The corrected loop and the loop as written agree whenever the student
      run does not fault. */
  lemma {:induction false} AsWrittenAgreesWithoutFaultFrom(m: Stream, s: Stream, i: nat)
    requires s.fault.None?
    requires i <= Paired(m, s)
    ensures CompareAsWrittenFrom(m, s, i, false) == CompareFrom(m, s, i)
    decreases |m.items| - i
  {
    if i < |m.items| && i < |s.items| {
      AsWrittenAgreesWithoutFaultFrom(m, s, i + 1);
      AgreeStep(m, s, i);
    } else {
      AgreeAtEnd(m, s, i);
    }
  }

  /** One paired step: both loops prepend the same step to the same rest. */
  lemma AgreeStep(m: Stream, s: Stream, i: nat)
    requires s.fault.None?
    requires i < |m.items| && i < |s.items|
    requires CompareAsWrittenFrom(m, s, i + 1, false) == CompareFrom(m, s, i + 1)
    ensures CompareAsWrittenFrom(m, s, i, false) == CompareFrom(m, s, i)
  {
    match PairStep(m.items[i], s.items[i])
    case Stop(why) =>
    case Flagged(f, l) =>
      assert CompareFrom(m, s, i) == PrependStep(l, f, CompareFrom(m, s, i + 1));
  }

  /** Past the last pair, with no student fault, both loops end as `Tail`. */
  lemma AgreeAtEnd(m: Stream, s: Stream, i: nat)
    requires s.fault.None?
    requires i <= Paired(m, s) && (i == |m.items| || i == |s.items|)
    ensures CompareAsWrittenFrom(m, s, i, false) == CompareFrom(m, s, i)
  {
    assert CompareFrom(m, s, i) == Tail(m, s, i);
  }

  lemma AsWrittenAgreesWithoutFault(m: Stream, s: Stream)
    requires s.fault.None?
    ensures CompareAsWritten(m, s) == Compare(m, s)
  {
    AsWrittenAgreesWithoutFaultFrom(m, s, 0);
  }

  /** The discrepancy: when the student generator raises while the master
      still has two or more items to give, the code as written blames the
      test script with "too few elements", where the logged message ("Cannot
      finish test") and the corrected loop simply end the test. */
  lemma {:induction false} AsWrittenFaultBecomesTooFewFrom(m: Stream, s: Stream, i: nat)
    requires s.fault.Some?
    requires i <= |s.items| && |s.items| + 1 < |m.items|
    requires StepsFlagged(m, s, i, |s.items|)
    ensures CompareAsWrittenFrom(m, s, i, false).Aborted?
    ensures CompareAsWrittenFrom(m, s, i, false).why == TooFew
    ensures CompareFrom(m, s, i).Done?
    decreases |s.items| - i
  {
    if i < |s.items| {
      AsWrittenFaultBecomesTooFewFrom(m, s, i + 1);
    }
  }

  lemma AsWrittenFaultBecomesTooFew(m: Stream, s: Stream)
    requires s.fault.Some?
    requires |s.items| + 1 < |m.items|
    requires StepsFlagged(m, s, 0, |s.items|)
    ensures CompareAsWritten(m, s).Aborted? && CompareAsWritten(m, s).why == TooFew
    ensures Compare(m, s).Done?
  {
    AsWrittenFaultBecomesTooFewFrom(m, s, 0);
  }

  /** A concrete instance: the master yields two Checks, the student
      generator raises before its first yield. */
  lemma AsWrittenFaultExample()
    ensures var c := CheckItem(Check("add_one(1)", Returned(IntV(2)), ""));
            var m := Stream([c, c], None);
            var s := Stream([], Some("Traceback\nZeroDivisionError"));
            CompareAsWritten(m, s).Aborted? && CompareAsWritten(m, s).why == TooFew
            && Compare(m, s) == Done([Fatal(Traceback.Slice("Traceback\nZeroDivisionError", StreamSkip))], [])
  {
    var c := CheckItem(Check("add_one(1)", Returned(IntV(2)), ""));
    var m := Stream([c, c], None);
    var s := Stream([], Some("Traceback\nZeroDivisionError"));
    AsWrittenFaultBecomesTooFew(m, s);
  }
}
