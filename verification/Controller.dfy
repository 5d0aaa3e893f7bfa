/** The run controller as a state machine over values: load, reset, stop, step and run. */
module Controller {
  import opened Bits
  import opened Isa
  import opened StepRecords
  import opened StepLaws

  datatype Format = WORDS | BINARY | ELF

  /** A program image as a loader hands it over. */
  datatype Image = Image(ram: seq<Byte>, loadAddress: Word, entry: Word, imageSize: nat, format: Format)

  datatype MachineState = MachineState(hart: Hart, initial: Image, loaded: bool, exited: bool, exitCode: Word)

  datatype Stop = READY | LIMIT | STOPPED | EXITED | TRAP | NO_PROGRAM | INVALID_ARGUMENT

  datatype Run = Run(reason: Stop, attempts: nat, retired: nat, last: StepRecord)

  /** A run with the machine it leaves and the records it traced. */
  datatype Report = Report(machine: MachineState, run: Run, trace: seq<StepRecord>)

  function ZeroRegisters(): Registers {
    seq(32, i => 0)
  }

  function NoSteps(m: MachineState, reason: Stop): Report {
    Report(m, Run(reason, 0, 0, EMPTY_RECORD), [])
  }

  /** The images `machine_load` accepts. */
  predicate Acceptable(p: Image) {
    && SizeValid(|p.ram|) && 4 <= p.imageSize
    && p.loadAddress + 4 <= |p.ram| && p.loadAddress + p.imageSize <= |p.ram|
    && p.entry % 4 == 0 && p.loadAddress <= p.entry && p.entry + 4 <= p.loadAddress + p.imageSize
  }

  function Loaded(p: Image): MachineState {
    MachineState(Hart(ZeroRegisters(), p.entry, 0, false, p.ram), p, true, false, 0)
  }

  function ResetOf(m: MachineState): MachineState {
    m.(hart := Hart(ZeroRegisters(), m.initial.entry, 0, false, m.initial.ram), exited := false, exitCode := 0)
  }

  function StopOf(m: MachineState): MachineState {
    m.(hart := m.hart.(halted := true))
  }

  function Resumed(h: Hart): Hart {
    h.(halted := false)
  }

  predicate Runnable(m: MachineState) {
    m.loaded && !m.exited
  }

  /** ECALL with a7 = 93 is the exit service. */
  ghost predicate ExitsAt(h: Hart) {
    ResultAfter(h) == Ecall && h.x[17] == 93
  }

  /** One attempt of a runnable machine, and why the attempt ended. */
  ghost function Attempted(m: MachineState): MachineState {
    var h := Resumed(m.hart);
    if ExitsAt(h) then m.(hart := h, exited := true, exitCode := h.x[10]) else m.(hart := After(h))
  }

  ghost function AttemptReason(m: MachineState): Stop {
    var h := Resumed(m.hart);
    if ResultAfter(h) == Ok then READY else if ExitsAt(h) then EXITED else TRAP
  }

  ghost function StepOf(m: MachineState): Report {
    if !m.loaded then NoSteps(m, NO_PROGRAM)
    else if m.exited then NoSteps(m, EXITED)
    else
      var reason, record := AttemptReason(m), RecordOf(Resumed(m.hart));
      Report(Attempted(m), Run(reason, 1, if reason == READY then 1 else 0, record), [record])
  }

  /** The answer of the stop callback when it is asked for the `i`th time; no callback never stops. */
  predicate Asked(answers: seq<bool>, i: nat) {
    i < |answers| && answers[i]
  }

  function Rest(answers: seq<bool>): seq<bool> {
    if answers == [] then [] else answers[1..]
  }

  /** The answers still to come after `i` of them. */
  function From(answers: seq<bool>, i: nat): seq<bool> {
    if i <= |answers| then answers[i..] else []
  }

  lemma NextAnswer(answers: seq<bool>, i: nat)
    ensures Asked(From(answers, i), 0) == Asked(answers, i)
    ensures Rest(From(answers, i)) == From(answers, i + 1)
    ensures From(answers, 0) == answers
  {
  }

  /** Put the steps of `first` in front of a run that continues where it ended. */
  function Then(first: Report, rest: Report): Report {
    Report(rest.machine,
            Run(rest.run.reason, first.run.attempts + rest.run.attempts, first.run.retired + rest.run.retired,
                if rest.run.attempts == 0 then first.run.last else rest.run.last),
            first.trace + rest.trace)
  }

  /** At most `limit` attempts, asking the stop callback before each. */
  ghost function Loop(m: MachineState, limit: nat, answers: seq<bool>): Report
    requires Runnable(m)
    decreases limit
  {
    if limit == 0 then NoSteps(m, LIMIT)
    else if Asked(answers, 0) then NoSteps(StopOf(m), STOPPED)
    else if AttemptReason(m) == READY then Then(StepOf(m), Loop(Attempted(m), limit - 1, Rest(answers)))
    else StepOf(m)
  }

  ghost function RunOf(m: MachineState, limit: nat, answers: seq<bool>): Report {
    if limit == 0 then NoSteps(m, INVALID_ARGUMENT)
    else if !m.loaded then NoSteps(m, NO_PROGRAM)
    else if m.exited then NoSteps(m, EXITED)
    else Loop(m, limit, answers)
  }

  // ----- Composition of runs -----

  lemma ThenAssociates(a: Report, b: Report, c: Report)
    ensures Then(a, Then(b, c)) == Then(Then(a, b), c)
  {
  }

  /** Nothing done yet: the left unit of `Then` for runs. */
  lemma ThenFromStart(m: MachineState, o: Report)
    requires o.run.attempts == 0 ==> o.run.last == EMPTY_RECORD
    ensures Then(NoSteps(m, READY), o) == o
  {
  }

  /** What one pass of the loop does. */
  lemma LoopCases(m: MachineState, limit: nat, answers: seq<bool>)
    requires Runnable(m)
    ensures limit == 0 ==> Loop(m, limit, answers) == NoSteps(m, LIMIT)
    ensures limit > 0 && Asked(answers, 0) ==> Loop(m, limit, answers) == NoSteps(StopOf(m), STOPPED)
    ensures limit > 0 && !Asked(answers, 0) ==>
              var one := StepOf(m);
              && one.run.attempts == 1 && one.trace == [one.run.last]
              && (if one.run.reason == READY then
                    Runnable(one.machine)
                    && Loop(m, limit, answers) == Then(one, Loop(one.machine, limit - 1, Rest(answers)))
                  else Loop(m, limit, answers) == one)
  {
    hide ResultAfter, After, RecordOf;
  }

  /** The counters and trace after adding one attempt to what is already done. */
  predicate Adds(done: Report, one: Run, next: Report) {
    && next.run.attempts == done.run.attempts + 1
    && next.run.retired == done.run.retired + one.retired
    && next.run.last == one.last
    && next.trace == done.trace + [one.last]
  }

  /** One ready attempt moves a step from the rest of the loop to what is already done. */
  lemma LoopAdvances(done: Report, m: MachineState, limit: nat, answers: seq<bool>, next: Report)
    requires Runnable(m) && limit > 0 && !Asked(answers, 0) && StepOf(m).run.reason == READY
    requires next.machine == StepOf(m).machine && Adds(done, StepOf(m).run, next)
    ensures Runnable(next.machine)
    ensures Then(done, Loop(m, limit, answers)) == Then(next, Loop(next.machine, limit - 1, Rest(answers)))
  {
    hide Loop, StepOf;
    LoopCases(m, limit, answers);
    ThenAssociates(done, StepOf(m), Loop(StepOf(m).machine, limit - 1, Rest(answers)));
  }

  /** The last attempt of a loop that does not end ready. */
  lemma LoopEnds(done: Report, m: MachineState, limit: nat, answers: seq<bool>, next: Report)
    requires Runnable(m) && limit > 0 && !Asked(answers, 0) && StepOf(m).run.reason != READY
    requires next.machine == StepOf(m).machine && Adds(done, StepOf(m).run, next)
             && next.run.reason == StepOf(m).run.reason
    ensures Then(done, Loop(m, limit, answers)) == next
  {
    hide Loop, StepOf;
    LoopCases(m, limit, answers);
  }

  /** Under any stop callback, a run of `a` attempts that ends at its limit, followed by a run of `b` attempts that is
      given the answers still to come, is one run of `a + b` attempts: same machine, same trace, summed counters. */
  lemma {:induction false} RunsCompose(m: MachineState, a: nat, b: nat, answers: seq<bool>)
    requires 0 < a && 0 < b && RunOf(m, a, answers).run.reason == LIMIT
    ensures RunOf(m, a + b, answers)
         == Then(RunOf(m, a, answers), RunOf(RunOf(m, a, answers).machine, b, From(answers, a)))
  {
    LoopsCompose(m, a, b, answers);
  }

  lemma {:induction false} LoopsCompose(m: MachineState, a: nat, b: nat, answers: seq<bool>)
    requires Runnable(m) && Loop(m, a, answers).run.reason == LIMIT
    ensures Runnable(Loop(m, a, answers).machine)
    ensures Loop(m, a + b, answers)
         == Then(Loop(m, a, answers), Loop(Loop(m, a, answers).machine, b, From(answers, a)))
    decreases a
  {
    hide ResultAfter, After, RecordOf;
    if a > 0 {
      assert AttemptReason(m) == READY;
      var next, rest := Attempted(m), Rest(answers);
      LoopsCompose(next, a - 1, b, rest);
      assert From(rest, a - 1) == From(answers, a);
      var first := Loop(next, a - 1, rest);
      ThenAssociates(StepOf(m), first, Loop(first.machine, b, From(answers, a)));
    }
  }

  /** Without a callback both runs are uninterrupted. */
  lemma UninterruptedRunsCompose(m: MachineState, a: nat, b: nat)
    requires 0 < a && 0 < b && RunOf(m, a, []).run.reason == LIMIT
    ensures RunOf(m, a + b, []) == Then(RunOf(m, a, []), RunOf(RunOf(m, a, []).machine, b, []))
  {
    hide RunOf;
    RunsCompose(m, a, b, []);
  }

  /** And a run of `a` attempts that ends for any other reason is already the run of any larger number of attempts. */
  lemma {:induction false} RunEndsEarly(m: MachineState, a: nat, b: nat, answers: seq<bool>)
    requires 0 < a && RunOf(m, a, answers).run.reason != LIMIT
    ensures RunOf(m, a + b, answers) == RunOf(m, a, answers)
  {
    if Runnable(m) {
      LoopEndsEarly(m, a, b, answers);
    }
  }

  lemma {:induction false} LoopEndsEarly(m: MachineState, a: nat, b: nat, answers: seq<bool>)
    requires Runnable(m) && Loop(m, a, answers).run.reason != LIMIT
    ensures Loop(m, a + b, answers) == Loop(m, a, answers)
    decreases a
  {
    hide ResultAfter, After, RecordOf;
    if a > 0 && !Asked(answers, 0) && AttemptReason(m) == READY {
      LoopEndsEarly(Attempted(m), a - 1, b, Rest(answers));
    }
  }

  /** A run that any callback stops ends after as many attempts as it let pass, and resuming it for `b` attempts
      completes the uninterrupted run of that many attempts and `b` more. */
  lemma {:induction false} StopThenResume(m: MachineState, limit: nat, answers: seq<bool>, b: nat)
    requires 0 < b && RunOf(m, limit, answers).run.reason == STOPPED
    ensures var stopped := RunOf(m, limit, answers);
            var k := stopped.run.attempts;
            && RunOf(m, k + b, []) == Then(stopped, RunOf(stopped.machine, b, []))
            && k < limit && Asked(answers, k) && forall i :: 0 <= i < k ==> !Asked(answers, i)
  {
    hide Loop, Asked, Then;
    assert Runnable(m);
    StopThenResumeLoop(m, limit, answers, b);
  }

  lemma {:induction false} StopThenResumeLoop(m: MachineState, limit: nat, answers: seq<bool>, b: nat)
    requires 0 < b && Runnable(m) && Loop(m, limit, answers).run.reason == STOPPED
    ensures var stopped := Loop(m, limit, answers);
            var k := stopped.run.attempts;
            && Runnable(stopped.machine) && Loop(m, k + b, []) == Then(stopped, Loop(stopped.machine, b, []))
            && k < limit && Asked(answers, k) && forall i :: 0 <= i < k ==> !Asked(answers, i)
    decreases limit
  {
    hide ResultAfter, After, RecordOf;
    if Asked(answers, 0) {
      StoppingIsInvisible(m, b);
    } else {
      assert AttemptReason(m) == READY;
      var next, rest := Attempted(m), Rest(answers);
      StopThenResumeLoop(next, limit - 1, rest, b);
      var stopped := Loop(next, limit - 1, rest);
      ThenAssociates(StepOf(m), stopped, Loop(stopped.machine, b, []));
      AskedLater(answers, stopped.run.attempts);
    }
  }

  lemma AskedLater(answers: seq<bool>, k: nat)
    requires !Asked(answers, 0) && forall i :: 0 <= i < k ==> !Asked(Rest(answers), i)
    ensures forall i :: 0 <= i < k + 1 ==> !Asked(answers, i)
    ensures Asked(answers, k + 1) == Asked(Rest(answers), k)
  {
    forall i | 0 < i < k + 1 ensures !Asked(answers, i) {
      assert !Asked(Rest(answers), i - 1);
    }
  }

  /** The next step or run clears the halted mark, so stopping a machine does not change what it does next. */
  lemma StoppingIsInvisible(m: MachineState, b: nat)
    requires Runnable(m) && 0 < b
    ensures Loop(m, b, []) == Then(NoSteps(StopOf(m), STOPPED), Loop(StopOf(m), b, []))
  {
    hide ResultAfter, After, RecordOf;
    assert Resumed(StopOf(m).hart) == Resumed(m.hart);
    assert AttemptReason(StopOf(m)) == AttemptReason(m);
    AttemptForgetsHalted(m);
  }

  lemma AttemptForgetsHalted(m: MachineState)
    ensures Attempted(StopOf(m)) == Attempted(m)
  {
    hide ResultAfter, After, RecordOf;
    assert Resumed(StopOf(m).hart) == Resumed(m.hart);
  }

  /** Retired equals attempts when a run ends at its limit or is stopped, and is one less when its last attempt traps or
      exits. The trace has one record for each attempt, and `last` is the last of them. */
  lemma {:induction false} RunCounts(m: MachineState, limit: nat, answers: seq<bool>)
    ensures var o := RunOf(m, limit, answers);
            && |o.trace| == o.run.attempts <= limit
            && (o.run.reason == LIMIT ==> o.run.attempts == limit)
            && (o.run.reason in {LIMIT, STOPPED} ==> o.run.retired == o.run.attempts)
            && (o.run.reason == TRAP ==> o.run.retired + 1 == o.run.attempts)
            && (o.run.reason == EXITED ==>
                  o.run.retired + 1 == o.run.attempts || (o.run.attempts == 0 && m.exited && o.machine == m))
            && o.run.reason != READY
            && (o.trace != [] ==> o.run.last == o.trace[|o.trace| - 1])
  {
    if Runnable(m) && limit > 0 {
      LoopCounts(m, limit, answers);
    }
  }

  lemma {:induction false} LoopCounts(m: MachineState, limit: nat, answers: seq<bool>)
    requires Runnable(m)
    ensures var o := Loop(m, limit, answers);
            && |o.trace| == o.run.attempts <= limit
            && (o.run.reason == LIMIT ==> o.run.attempts == limit)
            && (o.run.reason in {LIMIT, STOPPED} ==> o.run.retired == o.run.attempts)
            && (o.run.reason in {TRAP, EXITED} ==> o.run.retired + 1 == o.run.attempts)
            && o.run.reason in {LIMIT, STOPPED, TRAP, EXITED}
            && (o.run.attempts == 0 ==> o.run.last == EMPTY_RECORD)
            && (o.trace != [] ==> o.run.last == o.trace[|o.trace| - 1])
    decreases limit
  {
    hide ResultAfter, After, RecordOf;
    if limit > 0 && !Asked(answers, 0) && AttemptReason(m) == READY {
      LoopCounts(Attempted(m), limit - 1, Rest(answers));
    }
  }

  // ----- How attempts and runs end -----

  /** The outcomes of a step. Only an ECALL with a7 = 93 exits, with the status in a0; every other outcome leaves the
      exit state alone. A machine without a program, or that has exited, does not move. */
  lemma StepOutcomes(m: MachineState)
    ensures var o := StepOf(m);
            var (result, exits) := (o.run.last.result, o.run.last.result == Ecall && m.hart.x[17] == 93);
            if !m.loaded then o.run.reason == NO_PROGRAM && o.run.attempts == o.run.retired == 0 && o.machine == m
            else if m.exited then o.run.reason == EXITED && o.run.attempts == o.run.retired == 0 && o.machine == m
            else
              && o.run.attempts == 1 && o.run.retired == (if result == Ok then 1 else 0)
              && o.run.reason == (if result == Ok then READY else if exits then EXITED else TRAP)
              && o.machine.exited == exits && o.machine.exitCode == (if exits then m.hart.x[10] else m.exitCode)
              && (result != Ok ==> o.machine.hart == Resumed(m.hart)) && !o.machine.hart.halted
  {
    hide ResultAfter, After, Fetched, Fetchable, KindOf;
    var h := Resumed(m.hart);
    PreciseTraps(h);
    Endings(h);
    if ResultAfter(h) == Ok {
      RetiredKeepsRunning(h);
    }
  }

  lemma RetiredKeepsRunning(h: Hart)
    requires ResultAfter(h) == Ok
    ensures !After(h).halted
  {
    hide KindOf, Fetched;
  }

  /** What the last record and the final registers say when an attempt ended a run. */
  predicate EndsAs(o: Report, exited: bool, exitCode: Word) {
    var exits := o.run.last.result == Ecall && o.machine.hart.x[17] == 93;
    match o.run.reason
    case EXITED => exits && o.machine.exited && o.machine.exitCode == o.machine.hart.x[10]
    case TRAP => o.run.last.trap.raised && !exits && o.machine.exited == exited && o.machine.exitCode == exitCode
    case STOPPED => o.machine.hart.halted && o.machine.exited == exited && o.machine.exitCode == exitCode
    case _ => o.machine.exited == exited && o.machine.exitCode == exitCode
  }

  /** A run that attempts anything exits exactly by the exit service, with a0 of its final state as the exit code; a
      trap is the trap of the last record. A run that cannot start leaves the machine alone. */
  lemma {:induction false} RunEnds(m: MachineState, limit: nat, answers: seq<bool>)
    ensures var o := RunOf(m, limit, answers);
            if limit == 0 then o.run.reason == INVALID_ARGUMENT && o.machine == m
            else if !m.loaded then o.run.reason == NO_PROGRAM && o.machine == m
            else if m.exited then o.run.reason == EXITED && o.run.attempts == 0 && o.machine == m
            else o.run.reason in {LIMIT, STOPPED, TRAP, EXITED} && EndsAs(o, false, m.exitCode)
  {
    hide Loop, EndsAs;
    if limit > 0 && Runnable(m) {
      LoopCounts(m, limit, answers);
      LoopEndsAs(m, limit, answers);
    }
  }

  lemma {:induction false} LoopEndsAs(m: MachineState, limit: nat, answers: seq<bool>)
    requires Runnable(m)
    ensures EndsAs(Loop(m, limit, answers), false, m.exitCode)
    decreases limit
  {
    hide Loop, StepOf, ResultAfter, After, RecordOf;
    LoopCases(m, limit, answers);
    if limit > 0 && !Asked(answers, 0) {
      StepOutcomes(m);
      LoopCounts(m, limit, answers);
      var one := StepOf(m);
      if one.run.reason == READY {
        LoopEndsAs(one.machine, limit - 1, Rest(answers));
        var rest := Loop(one.machine, limit - 1, Rest(answers));
        LoopCounts(one.machine, limit - 1, Rest(answers));
        assert rest.run.reason == EXITED || rest.run.reason == TRAP ==> rest.run.attempts > 0;
      } else {
        AttemptTraps(m);
      }
    }
  }

  lemma AttemptTraps(m: MachineState)
    requires Runnable(m) && StepOf(m).run.reason != READY
    ensures StepOf(m).run.last.trap.raised
  {
    hide ResultAfter, After, RecordOf;
    PreciseTraps(Resumed(m.hart));
  }

  /** The callback is asked before every attempt: it let every attempt made pass, and a run that stops did so at its
      first yes. */
  lemma {:induction false} RunStops(m: MachineState, limit: nat, answers: seq<bool>)
    requires 0 < limit && Runnable(m)
    ensures var o := RunOf(m, limit, answers);
            var k := o.run.attempts;
            && (forall i :: 0 <= i < k && i < |answers| ==> !answers[i])
            && (o.run.reason == STOPPED <==> k < limit && k < |answers| && answers[k] && o.run.retired == k)
  {
    hide Loop;
    LoopStops(m, limit, answers);
  }

  lemma {:induction false} LoopStops(m: MachineState, limit: nat, answers: seq<bool>)
    requires Runnable(m)
    ensures var o := Loop(m, limit, answers);
            var k := o.run.attempts;
            && (forall i :: 0 <= i < k && i < |answers| ==> !answers[i])
            && (o.run.reason == STOPPED <==> k < limit && k < |answers| && answers[k] && o.run.retired == k)
    decreases limit
  {
    hide Loop, StepOf;
    LoopCases(m, limit, answers);
    LoopCounts(m, limit, answers);
    if limit > 0 && !Asked(answers, 0) {
      StepOutcomes(m);
      var one := StepOf(m);
      if one.run.reason == READY {
        var rest := Rest(answers);
        LoopStops(one.machine, limit - 1, rest);
        LoopCounts(one.machine, limit - 1, rest);
        var k := Loop(one.machine, limit - 1, rest).run.attempts;
        forall i | 0 <= i < k + 1 && i < |answers| ensures !answers[i] {
          assert i > 0 ==> answers[i] == rest[i - 1];
        }
      }
    }
  }

  // ----- Records of a run as a log -----

  ghost function RedoAll(h: Hart, trace: seq<StepRecord>): Hart
    decreases |trace|
  {
    if trace == [] then h else RedoAll(Redo(h, trace[0]), trace[1..])
  }

  /** Take the records back, last first. */
  ghost function UndoAll(h: Hart, trace: seq<StepRecord>): Hart
    decreases |trace|
  {
    if trace == [] then h else Undo(UndoAll(h, trace[1..]), trace[0])
  }

  /** The traced records alone carry the CPU and RAM forward from the start of any run to its end, and back again; only
      the halted mark is not recorded. */
  lemma {:induction false} RunIsLogged(m: MachineState, limit: nat, answers: seq<bool>)
    ensures var o := RunOf(m, limit, answers);
            && Resumed(RedoAll(m.hart, o.trace)) == Resumed(o.machine.hart)
            && Resumed(UndoAll(o.machine.hart, o.trace)) == Resumed(m.hart)
  {
    if Runnable(m) && limit > 0 {
      LoopIsLogged(m, limit, answers);
    }
  }

  lemma {:induction false} LoopIsLogged(m: MachineState, limit: nat, answers: seq<bool>)
    requires Runnable(m)
    ensures var o := Loop(m, limit, answers);
            && Resumed(RedoAll(m.hart, o.trace)) == Resumed(o.machine.hart)
            && Resumed(UndoAll(o.machine.hart, o.trace)) == Resumed(m.hart)
    decreases limit
  {
    hide ResultAfter, After, RecordOf, Redo, Undo;
    if limit > 0 && !Asked(answers, 0) {
      AttemptIsLogged(m);
      var record := RecordOf(Resumed(m.hart));
      var next := Attempted(m);
      if AttemptReason(m) == READY {
        LoopIsLogged(next, limit - 1, Rest(answers));
        var rest := Loop(next, limit - 1, Rest(answers));
        var o := Loop(m, limit, answers);
        assert o.trace == [record] + rest.trace && o.trace[1..] == rest.trace;
        RedoIgnoresHalted(m.hart, record);
        RedoAllIgnoresHalted(Redo(m.hart, record), next.hart, rest.trace);
        UndoIgnoresHalted(UndoAll(o.machine.hart, rest.trace), next.hart, record);
      } else {
        assert [record][1..] == [];
        assert RedoAll(m.hart, [record]) == Redo(m.hart, record);
        assert UndoAll(next.hart, [record]) == Undo(next.hart, record);
        RedoIgnoresHalted(m.hart, record);
      }
    }
  }

  lemma AttemptIsLogged(m: MachineState)
    ensures var h := Resumed(m.hart);
            Redo(h, RecordOf(h)) == Attempted(m).hart && Undo(Attempted(m).hart, RecordOf(h)) == h
  {
    hide ResultAfter, After, RecordOf, Redo, Undo;
    var h := Resumed(m.hart);
    RedoStep(h);
    UndoStep(h);
    if ExitsAt(h) {
      Endings(h);
    }
  }

  lemma RedoIgnoresHalted(h: Hart, r: StepRecord)
    ensures Resumed(Redo(h, r)) == Resumed(Redo(Resumed(h), r))
  {
  }

  lemma UndoIgnoresHalted(g: Hart, h: Hart, r: StepRecord)
    requires Resumed(g) == Resumed(h)
    ensures Resumed(Undo(g, r)) == Resumed(Undo(h, r))
  {
  }

  lemma {:induction false} RedoAllIgnoresHalted(g: Hart, h: Hart, trace: seq<StepRecord>)
    requires Resumed(g) == Resumed(h)
    ensures Resumed(RedoAll(g, trace)) == Resumed(RedoAll(h, trace))
    decreases |trace|
  {
    if trace != [] {
      RedoIgnoresHalted(g, trace[0]);
      RedoIgnoresHalted(h, trace[0]);
      RedoAllIgnoresHalted(Redo(g, trace[0]), Redo(h, trace[0]), trace[1..]);
    }
  }
}
