/** The machine object: a CPU, its RAM and the initial image it can be reset to. */
module Machines {
  import opened Bits
  import opened Isa
  import opened RamOwner
  import opened StepRecords
  import opened Cpus
  import opened Controller
  import opened Programs

  /** The current and the initial image of a machine about to be loaded, as independent copies. */
  method CloneTwice(program: Program, firstClone: bool, secondClone: bool)
    returns (ok: bool, memory: Memory, initial: Program)
    requires program.memory.Ready()
    ensures ok == (firstClone && secondClone)
    ensures fresh(memory) && fresh(memory.bytes) && fresh(initial) && fresh(initial.memory)
            && fresh(initial.memory.bytes)
    ensures memory != initial.memory && memory.bytes != initial.memory.bytes
    ensures ok ==> memory.Contents() == program.memory.Contents() && initial.View() == program.View()
    ensures initial.elfData == []
  {
    memory := new Memory();
    initial := new Program();
    ok := memory.CloneFrom(program.memory, firstClone);
    if !ok {
      return;
    }
    ok := initial.memory.CloneFrom(program.memory, secondClone);
    if !ok {
      return;
    }
    initial.loadAddress := program.loadAddress;
    initial.entry := program.entry;
    initial.imageSize := program.imageSize;
    initial.format := program.format;
  }

  /** The checks of `machine_load`, on the program's own fields. */
  method Accepts(program: Program) returns (ok: bool)
    ensures ok == Acceptable(program.View())
    ensures ok ==> program.memory.Ready()
  {
    var size := program.memory.bytes.Length;
    if !SizeValid(size) || program.imageSize < 4
       || program.loadAddress > size - 4
       || program.imageSize > size - program.loadAddress
       || program.entry % 4 != 0 || program.entry < program.loadAddress
       || program.entry - program.loadAddress > program.imageSize - 4 {
      return false;
    }
    return true;
  }

  class Machine {
    var cpu: Cpu
    var memory: Memory
    var initial: Program
    var loaded: bool
    var exited: bool
    var exitCode: Word

    /** `machine_init`. */
    constructor ()
      ensures Valid() && !loaded && !exited && exitCode == 0
    {
      cpu := new Cpu();
      memory := new Memory();
      initial := new Program();
      loaded, exited, exitCode := false, false, 0;
    }

    /** Current and initial RAM never share storage, and a loaded machine holds two supported images of one size. */
    predicate Valid()
      reads this, cpu, memory, initial, initial.memory
    {
      && cpu.Valid()
      && memory != initial.memory && memory.bytes != initial.memory.bytes
      && cpu.registers as object != memory.bytes as object && cpu.registers as object != initial.memory.bytes as object
      && (loaded ==> memory.Ready() && initial.memory.Ready() && memory.bytes.Length == initial.memory.bytes.Length)
    }

    function View(): MachineState
      requires Valid()
      reads this, cpu, cpu.registers, memory, memory.bytes, initial, initial.memory, initial.memory.bytes
    {
      MachineState(cpu.View(memory.Contents()), initial.View(), loaded, exited, exitCode)
    }

    /** `machine_load`: check the program, clone its image twice, and only then replace the machine. The program may be
        this machine's own initial image. */
    method Load(program: Program, firstClone: bool, secondClone: bool) returns (ok: bool)
      requires Valid()
      modifies this
      ensures Valid()
      ensures ok == (Acceptable(old(program.View())) && firstClone && secondClone)
      ensures ok ==> View() == Loaded(old(program.View()))
      ensures ok ==>
                fresh(cpu) && fresh(memory) && fresh(memory.bytes) && fresh(initial) && fresh(initial.memory)
                && fresh(initial.memory.bytes)
      ensures ok ==>
                && loaded && !exited && exitCode == 0 && initial.elfData == []
                && cpu.programCounter == old(program.entry) && cpu.instructionCount == 0 && !cpu.halted
                && cpu.registers[..] == seq(32, i => 0) && memory.bytes[..] == old(program.memory.bytes[..])
      ensures !ok ==> View() == old(View()) && initial == old(initial)
    {
      hide Acceptable, SizeValid;
      ghost var image := program.View();
      var accepted := Accepts(program);
      if !accepted {
        return false;
      }
      var cloned, nextMemory, nextInitial := CloneTwice(program, firstClone, secondClone);
      if !cloned {
        return false;
      }
      assert nextInitial.View() == image;
      var nextCpu := new Cpu();
      nextCpu.programCounter := program.entry;
      assert nextCpu.View(nextMemory.Contents()) == Loaded(image).hart;
      cpu, memory, initial := nextCpu, nextMemory, nextInitial;
      loaded, exited, exitCode := true, false, 0;
      return true;
    }

    /** `machine_reset` restores RAM in place and never fails on a loaded machine. */
    method Reset() returns (ok: bool)
      requires Valid()
      modifies this`exited, this`exitCode, cpu, cpu.registers, memory.bytes
      ensures Valid() && ok == loaded
      ensures View() == if ok then ResetOf(old(View())) else old(View())
      ensures ok ==>
                && !exited && exitCode == 0 && cpu.programCounter == initial.entry && cpu.instructionCount == 0
                && !cpu.halted && cpu.registers[..] == seq(32, i => 0) && memory.bytes[..] == initial.memory.bytes[..]
    {
      if !loaded {
        return false;
      }
      ok := memory.CopyFrom(initial.memory);
      if !ok {
        assert false;
        return false;
      }
      cpu.Reset();
      cpu.programCounter := initial.entry;
      exited := false;
      exitCode := 0;
      return true;
    }

    method Stop()
      requires Valid()
      modifies cpu
      ensures Valid() && View() == StopOf(old(View())) && cpu.halted
    {
      cpu.halted := true;
    }

    /** `machine_step`: resume, attempt one instruction and classify how it ended. */
    method Step() returns (run: Run, ghost report: Report)
      requires Valid()
      modifies this`exited, this`exitCode, cpu, cpu.registers, memory.bytes
      ensures Valid()
      ensures report == StepOf(old(View())) && View() == report.machine && run == report.run
      ensures !old(loaded) ==> run.reason == NO_PROGRAM && run.attempts == 0 && View() == old(View())
      ensures old(loaded) && old(exited) ==> run.reason == EXITED && run.attempts == 0 && View() == old(View())
      ensures old(loaded) && !old(exited) ==>
                var exits := run.last.result == Ecall && old(cpu.registers[17]) == 93;
                && run.attempts == 1 && run.retired == (if run.last.result == Ok then 1 else 0)
                && run.reason == (if run.last.result == Ok then READY else if exits then EXITED else TRAP)
                && exited == exits && exitCode == (if exits then old(cpu.registers[10]) else old(exitCode))
    {
      hide RecordOf, After, ResultAfter;
      ghost var m := View();
      StepOutcomes(m);
      report := StepOf(m);
      run := Run(READY, 0, 0, EMPTY_RECORD);
      if !loaded {
        run := run.(reason := NO_PROGRAM);
        return;
      }
      if exited {
        run := run.(reason := EXITED);
        return;
      }
      cpu.halted := false;
      var result, record := cpu.StepRecorded(memory);
      if result == Ecall {
        EcallChangesNothing(Resumed(m.hart));
      }
      run := run.(attempts := 1, last := record);
      if result == Ok {
        run := run.(retired := 1, reason := READY);
      } else if result == Ecall && cpu.registers[17] == 93 {
        exited := true;
        exitCode := cpu.registers[10];
        run := run.(reason := EXITED);
      } else {
        run := run.(reason := TRAP);
      }
    }

    /** `machine_run`: at most `limit` attempts. `answers` are the stop callback's answers in order; `trace` is what the
        trace callback receives. */
    method RunFor(limit: nat, answers: seq<bool>) returns (total: Run, trace: seq<StepRecord>)
      requires Valid()
      modifies this`exited, this`exitCode, cpu, cpu.registers, memory.bytes
      ensures Valid()
      ensures Report(View(), total, trace) == RunOf(old(View()), limit, answers)
      ensures total.reason == INVALID_ARGUMENT <==> limit == 0
      ensures total.reason == NO_PROGRAM <==> limit != 0 && !old(loaded)
      ensures total.reason == EXITED && total.attempts != 0 ==>
                exited && total.last.result == Ecall && cpu.registers[17] == 93 && exitCode == cpu.registers[10]
    {
      hide RunOf, Loop;
      RunEnds(View(), limit, answers);
      RunCounts(View(), limit, answers);
      RunCases(View(), limit, answers);
      total, trace := Run(READY, 0, 0, EMPTY_RECORD), [];
      if limit == 0 {
        total := total.(reason := INVALID_ARGUMENT);
        return;
      }
      if !loaded {
        total := total.(reason := NO_PROGRAM);
        return;
      }
      if exited {
        total := total.(reason := EXITED);
        return;
      }
      total, trace := Attempts(limit, answers);
    }

    /** One turn of the loop: a step, its counters added and its record traced. */
    method Advance(total: Run, trace: seq<StepRecord>) returns (total': Run, trace': seq<StepRecord>, more: bool)
      requires Valid() && Runnable(View())
      modifies this`exited, this`exitCode, cpu, cpu.registers, memory.bytes
      ensures Valid() && View() == StepOf(old(View())).machine
      ensures var one := StepOf(old(View())).run;
              && more == (one.reason == READY) && (!more ==> total'.reason == one.reason)
              && Adds(Report(old(View()), total, trace), one, Report(View(), total', trace'))
    {
      hide StepOf;
      var one, report := Step();
      total' := total.(attempts := total.attempts + one.attempts,
                       retired := total.retired + one.retired,
                       last := one.last);
      trace' := trace;
      if one.attempts != 0 {
        trace' := trace + [one.last];
      }
      more := one.reason == READY;
      if !more {
        total' := total'.(reason := one.reason);
      }
    }

    /** The loop of `machine_run`. */
    method Attempts(limit: nat, answers: seq<bool>) returns (total: Run, trace: seq<StepRecord>)
      requires Valid() && Runnable(View())
      modifies this`exited, this`exitCode, cpu, cpu.registers, memory.bytes
      ensures Valid()
      ensures Report(View(), total, trace) == Loop(old(View()), limit, answers)
    {
      hide StepOf, Loop, From, Rest, Then, Runnable;
      total, trace := Run(READY, 0, 0, EMPTY_RECORD), [];
      ghost var goal := Loop(View(), limit, answers);
      LoopCounts(View(), limit, answers);
      ThenFromStart(View(), goal);
      NextAnswer(answers, 0);
      while total.attempts < limit
        invariant Valid() && Runnable(View())
        invariant total.attempts <= limit
        invariant Then(Report(View(), total, trace),
                       Loop(View(), limit - total.attempts, From(answers, total.attempts))) == goal
        decreases limit - total.attempts
      {
        ghost var now, done := View(), Report(View(), total, trace);
        ghost var left := From(answers, total.attempts);
        LoopCases(now, limit - total.attempts, left);
        NextAnswer(answers, total.attempts);
        if total.attempts < |answers| && answers[total.attempts] {
          Stop();
          total := total.(reason := STOPPED);
          ThenNothing(done, StopOf(now), STOPPED);
          return;
        }
        var more;
        total, trace, more := Advance(total, trace);
        if !more {
          LoopEnds(done, now, limit - done.run.attempts, left, Report(View(), total, trace));
          return;
        }
        LoopAdvances(done, now, limit - done.run.attempts, left, Report(View(), total, trace));
      }
      LoopCases(View(), 0, From(answers, limit));
      ThenNothing(Report(View(), total, trace), View(), LIMIT);
      total := total.(reason := LIMIT);
    }
  }

  lemma RunCases(m: MachineState, limit: nat, answers: seq<bool>)
    ensures limit == 0 ==> RunOf(m, limit, answers) == NoSteps(m, INVALID_ARGUMENT)
    ensures limit > 0 && !m.loaded ==> RunOf(m, limit, answers) == NoSteps(m, NO_PROGRAM)
    ensures limit > 0 && m.loaded && m.exited ==> RunOf(m, limit, answers) == NoSteps(m, EXITED)
    ensures limit > 0 && Runnable(m) ==> RunOf(m, limit, answers) == Loop(m, limit, answers)
  {
  }

  lemma ThenNothing(done: Report, m: MachineState, reason: Stop)
    ensures Then(done, NoSteps(m, reason)) == Report(m, done.run.(reason := reason), done.trace)
  {
  }

  lemma EcallChangesNothing(h: Hart)
    requires ResultAfter(h) == Ecall
    ensures After(h) == h
  {
    hide Isa.Execute;
  }
}
