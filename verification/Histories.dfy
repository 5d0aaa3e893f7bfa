/** Every history of controller calls: the invariants of all reachable machines, and what reset restores. */
module Histories {
  import opened Isa
  import opened StepRecords
  import opened StepLaws
  import opened Controller

  /** One call of the controller's interface. A load that is rejected or runs out of storage changes nothing. */
  datatype Call =
    | Load(image: Image)
    | Step
    | RunFor(limit: nat, answers: seq<bool>)
    | Halt
    | Reset

  function Initialized(): MachineState {
    MachineState(Hart(ZeroRegisters(), 0, 0, false, []), Image([], 0, 0, 0, WORDS), false, false, 0)
  }

  ghost function Apply(m: MachineState, c: Call): MachineState {
    match c
    case Load(image) => if Acceptable(image) then Loaded(image) else m
    case Step => StepOf(m).machine
    case RunFor(limit, answers) => RunOf(m, limit, answers).machine
    case Halt => StopOf(m)
    case Reset => if m.loaded then ResetOf(m) else m
  }

  ghost function Play(m: MachineState, calls: seq<Call>): MachineState
    decreases |calls|
  {
    if calls == [] then m else Play(Apply(m, calls[0]), calls[1..])
  }

  /** How many instructions a call retires, when it neither loads nor resets. */
  ghost function Retires(m: MachineState, c: Call): nat {
    match c
    case Step => StepOf(m).run.retired
    case RunFor(limit, answers) => RunOf(m, limit, answers).run.retired
    case _ => 0
  }

  /** A load the machine accepts. */
  predicate Loads(c: Call) {
    c.Load? && Acceptable(c.image)
  }

  /** A call that starts the count afresh: an accepted load, or a reset of a loaded machine. */
  predicate Restarts(m: MachineState, c: Call) {
    Loads(c) || (c.Reset? && m.loaded)
  }

  /** Instructions retired since the last load or reset of a history, given the number before it. */
  ghost function RetiredSince(m: MachineState, calls: seq<Call>, before: nat): nat
    decreases |calls|
  {
    if calls == [] then before
    else
      var c := calls[0];
      RetiredSince(Apply(m, c), calls[1..], if Restarts(m, c) then 0 else before + Retires(m, c))
  }

  // ----- Invariants -----

  predicate WellFormed(m: MachineState) {
    && Sound(m.hart)
    && (m.loaded ==> Acceptable(m.initial) && |m.hart.ram| == |m.initial.ram|)
  }

  const WRAP: int := 0x1_0000_0000_0000_0000

  /** What any number of attempts keeps, and how far it moves the count. */
  ghost predicate Continues(m: MachineState, o: Report) {
    && (WellFormed(m) ==> WellFormed(o.machine))
    && o.machine.initial == m.initial && o.machine.loaded == m.loaded
    && o.machine.hart.count == (m.hart.count + o.run.retired) % WRAP
  }

  lemma AttemptContinues(m: MachineState)
    requires Runnable(m)
    ensures Continues(m, StepOf(m))
  {
    hide ResultAfter, After, RecordOf;
    var h := Resumed(m.hart);
    CountsRetirements(h);
    Endings(h);
    if Sound(h) {
      StepKeepsSound(h);
    }
  }

  lemma {:induction false} LoopContinues(m: MachineState, limit: nat, answers: seq<bool>)
    requires Runnable(m)
    ensures Continues(m, Loop(m, limit, answers))
    decreases limit
  {
    hide ResultAfter, After, RecordOf, WellFormed;
    if limit == 0 {
      NothingContinues(m);
    } else if Asked(answers, 0) {
      StopKeeps(m);
      NothingContinues(m);
    } else {
      LoopCases(m, limit, answers);
      AttemptContinues(m);
      if AttemptReason(m) == READY {
        LoopContinues(Attempted(m), limit - 1, Rest(answers));
        ContinuesThen(m, StepOf(m), Loop(Attempted(m), limit - 1, Rest(answers)));
      }
    }
  }

  lemma NothingContinues(m: MachineState)
    ensures m.hart.count == (m.hart.count + 0) % WRAP
  {
  }

  lemma ContinuesThen(m: MachineState, first: Report, rest: Report)
    requires Continues(m, first) && Continues(first.machine, rest)
    ensures Continues(m, Then(first, rest))
  {
    hide WellFormed;
    WrapOfSum(m.hart.count + first.run.retired, rest.run.retired);
  }

  lemma StopKeeps(m: MachineState)
    ensures WellFormed(m) ==> WellFormed(StopOf(m))
  {
  }

  lemma RunContinues(m: MachineState, limit: nat, answers: seq<bool>)
    ensures Continues(m, RunOf(m, limit, answers)) && Continues(m, StepOf(m))
  {
    hide WellFormed, Loop, ResultAfter, After, RecordOf;
    if Runnable(m) {
      LoopContinues(m, limit, answers);
      AttemptContinues(m);
    }
  }

  lemma ApplyKeeps(m: MachineState, c: Call)
    requires WellFormed(m)
    ensures WellFormed(Apply(m, c))
  {
    hide StepOf, RunOf;
    match c
    case RunFor(limit, answers) => RunContinues(m, limit, answers);
    case Step => RunContinues(m, 0, []);
    case _ =>
  }

  lemma {:induction false} PlayKeeps(m: MachineState, calls: seq<Call>)
    requires WellFormed(m)
    ensures WellFormed(Play(m, calls))
    decreases |calls|
  {
    if calls != [] {
      ApplyKeeps(m, calls[0]);
      PlayKeeps(Apply(m, calls[0]), calls[1..]);
    }
  }

  /** Every machine any history of calls can produce: x0 is zero, the program counter is aligned, and RAM has the size
      of the initial image, which is still one `machine_load` accepts. */
  lemma ReachableInvariant(calls: seq<Call>)
    ensures WellFormed(Play(Initialized(), calls))
  {
    PlayKeeps(Initialized(), calls);
  }

  /** On a reachable machine the fetch-alignment fault never fires: a misaligned-PC attempt fetched a branch or jump,
      took it, and reports its target. */
  lemma ReachableMisalignment(calls: seq<Call>)
    requires var m := Play(Initialized(), calls); Runnable(m) && StepOf(m).run.last.result == MisalignedPc
    ensures var h := Resumed(Play(Initialized(), calls).hart);
            var r := StepOf(Play(Initialized(), calls)).run.last;
            Fetchable(h) && r.fetched && Jumps(h, Fetched(h)) && r.trap.value == NextPc(h, Fetched(h))
            && r.trap.value % 4 == 2
  {
    hide ResultAfter, After, RecordOf;
    ReachableInvariant(calls);
    var h := Resumed(Play(Initialized(), calls).hart);
    PreciseTraps(h);
    MisalignmentIsATransfer(h);
  }

  /** The same for every attempt of every run of a reachable machine. */
  lemma RunMisalignments(calls: seq<Call>, limit: nat, answers: seq<bool>, i: nat)
    requires i < |RunOf(Play(Initialized(), calls), limit, answers).trace|
    requires RunOf(Play(Initialized(), calls), limit, answers).trace[i].result == MisalignedPc
    ensures IsTransferTrap(RunOf(Play(Initialized(), calls), limit, answers).trace[i])
  {
    hide Loop, WellFormed, IsTransferTrap, Play;
    var m := Play(Initialized(), calls);
    ReachableInvariant(calls);
    if limit > 0 && Runnable(m) {
      LoopMisalignments(m, limit, answers, i);
    }
  }

  /** The record of a fetched instruction whose target, reported as the trap value, is even but not a multiple of 4. */
  predicate IsTransferTrap(r: StepRecord) {
    r.fetched && r.trap.raised && r.trap.cause == INSTRUCTION_MISALIGNED && r.trap.value % 4 == 2
  }

  lemma {:induction false} LoopMisalignments(m: MachineState, limit: nat, answers: seq<bool>, i: nat)
    requires WellFormed(m) && Runnable(m)
    requires i < |Loop(m, limit, answers).trace| && Loop(m, limit, answers).trace[i].result == MisalignedPc
    ensures IsTransferTrap(Loop(m, limit, answers).trace[i])
    decreases limit
  {
    hide ResultAfter, After, RecordOf, WellFormed, IsTransferTrap;
    if i == 0 {
      AttemptMisalignment(m);
    } else {
      AttemptContinues(m);
      var rest := Loop(Attempted(m), limit - 1, Rest(answers)).trace;
      assert Loop(m, limit, answers).trace == StepOf(m).trace + rest;
      LoopMisalignments(Attempted(m), limit - 1, Rest(answers), i - 1);
    }
  }

  lemma AttemptMisalignment(m: MachineState)
    requires WellFormed(m) && RecordOf(Resumed(m.hart)).result == MisalignedPc
    ensures IsTransferTrap(RecordOf(Resumed(m.hart)))
  {
    hide ResultAfter, After, RecordOf;
    PreciseTraps(Resumed(m.hart));
    MisalignmentIsATransfer(Resumed(m.hart));
    ResultsNameCauses(RecordOf(Resumed(m.hart)).trap.cause, INSTRUCTION_MISALIGNED);
  }

  // ----- The count -----

  lemma WrapOfSum(a: int, b: int)
    ensures (a % WRAP + b) % WRAP == (a + b) % WRAP
  {
  }

  lemma ApplyCounts(m: MachineState, c: Call)
    requires !Restarts(m, c)
    ensures Apply(m, c).hart.count == (m.hart.count + Retires(m, c)) % WRAP
  {
    hide StepOf, RunOf;
    match c
    case RunFor(limit, answers) => RunContinues(m, limit, answers);
    case Step => RunContinues(m, 0, []);
    case _ =>
  }

  /** The count after a call that neither loads nor resets. */
  lemma CountedOn(m: MachineState, c: Call, before: nat)
    requires !Restarts(m, c) && m.hart.count == before % WRAP
    ensures Apply(m, c).hart.count == (before + Retires(m, c)) % WRAP
  {
    hide Apply, Retires, Restarts;
    ApplyCounts(m, c);
    WrapOfSum(before, Retires(m, c));
  }

  /** And after one that does. */
  lemma CountedAfresh(m: MachineState, c: Call)
    requires Restarts(m, c)
    ensures Apply(m, c).hart.count == 0
  {
  }

  lemma {:induction false} PlayCounts(m: MachineState, calls: seq<Call>, before: nat)
    requires m.hart.count == before % WRAP
    ensures Play(m, calls).hart.count == RetiredSince(m, calls, before) % WRAP
    decreases |calls|
  {
    hide Retires, Apply, Restarts;
    if calls != [] {
      var c := calls[0];
      if Restarts(m, c) {
        CountedAfresh(m, c);
        PlayCounts(Apply(m, c), calls[1..], 0);
      } else {
        CountedOn(m, c, before);
        PlayCounts(Apply(m, c), calls[1..], before + Retires(m, c));
      }
    }
  }

  /** The instruction count is the number of instructions retired since the last load or reset, modulo 2^64. */
  lemma CountIsRetirements(calls: seq<Call>)
    ensures Play(Initialized(), calls).hart.count == RetiredSince(Initialized(), calls, 0) % WRAP
  {
    PlayCounts(Initialized(), calls, 0);
  }

  // ----- Reset -----

  lemma {:induction false} PlayKeepsImage(m: MachineState, calls: seq<Call>)
    requires forall c :: c in calls ==> !Loads(c)
    ensures Play(m, calls).initial == m.initial && Play(m, calls).loaded == m.loaded
    decreases |calls|
  {
    hide StepOf, RunOf;
    if calls != [] {
      var c := calls[0];
      assert c in calls && !Loads(c);
      if c.RunFor? {
        RunContinues(m, c.limit, c.answers);
      } else {
        RunContinues(m, 0, []);
      }
      assert forall d :: d in calls[1..] ==> d in calls;
      PlayKeepsImage(Apply(m, c), calls[1..]);
    }
  }

  /** After any history without another load the image is untouched, and reset gives back the state right after the
      load; so every later run repeats the first one exactly. */
  lemma ResetReplaysLoad(image: Image, calls: seq<Call>, limit: nat, answers: seq<bool>)
    requires Acceptable(image) && forall c :: c in calls ==> !Loads(c)
    ensures var m := Play(Loaded(image), calls);
            && m.loaded && m.initial == image
            && Apply(m, Reset) == Loaded(image)
            && RunOf(Apply(m, Reset), limit, answers) == RunOf(Loaded(image), limit, answers)
  {
    PlayKeepsImage(Loaded(image), calls);
  }

  /** Loading a reachable machine from its own initial image succeeds and is the same as resetting it. */
  lemma ReloadIsReset(calls: seq<Call>)
    requires Play(Initialized(), calls).loaded
    ensures var m := Play(Initialized(), calls);
            Acceptable(m.initial) && Apply(m, Load(m.initial)) == Apply(m, Reset)
  {
    ReachableInvariant(calls);
  }
}
