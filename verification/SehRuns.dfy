// Whole runs of faults, handler returns and guest code: what a dispatch leaves for its own end, however many handlers
// are tried and however many faults are raised and dispatched inside them.

module SehRuns {
  import opened MachineTypes
  import opened FlatMemory
  import opened X86Registers
  import opened SehSpec
  import opened SehDispatch

  // The guest runs and may do anything to registers and memory, a fault is dispatched or refused, or a handler returns.
  datatype Event =
    | GuestRuns
    | Fault(pc: u64, faultAddress: u64, code: u32, trap: bool)
    | FaultRefused(delivering: bool)
    | HandlerReturns

  ghost predicate Happens(e: Event, s: Process, t: Process, returnTrap: u32)
    requires Nested(s.stack)
  {
    match e
    case GuestRuns => t.stack == s.stack && t.deliver == s.deliver && t.deliverPc == s.deliverPc
    && t.terminate == s.terminate
    case Fault(pc, faultAddress, code, trap) => Dispatched(s, t, pc, faultAddress, code, trap, returnTrap)
    case FaultRefused(delivering) => Refused(s, t, delivering)
    case HandlerReturns => s.stack != [] && Returned(s, t, returnTrap)
  }

  ghost predicate IsRun(states: seq<Process>, events: seq<Event>, returnTrap: u32) {
    && |states| == |events| + 1
    && (forall i :: 0 <= i < |states| ==> Nested(states[i].stack))
    && forall i, j :: 0 <= i < |events| && j == i + 1 ==> Happens(events[i], states[i], states[j], returnTrap)
  }

  // The dispatch at depth d is in flight before and after the event: it is neither popped nor reclaimed.
  predicate Survives(e: Event, s: Process, t: Process, d: nat) {
    && d < |s.stack| && d < |t.stack|
    && (e.Fault? || e.FaultRefused? ==> d < |Reclaimed(s.stack, Esp(s.regs))|)
  }

  predicate SurvivesAll(states: seq<Process>, events: seq<Event>, d: nat)
    requires |states| == |events| + 1
  {
    && d < |states[0].stack|
    && forall i, j :: 0 <= i < |events| && j == i + 1 ==> Survives(events[i], states[i], states[j], d)
  }

  // The two stacks are the same up to and including depth d, except that another record is being tried there.
  predicate SameUpTo(s: Process, t: Process, d: nat)
    requires d < |s.stack| && d < |t.stack|
  {
    t.stack[..d] == s.stack[..d] && t.stack[d] == s.stack[d].(record := t.stack[d].record)
  }

  lemma FrameKept(e: Event, s: Process, t: Process, d: nat, returnTrap: u32)
    requires Nested(s.stack) && Happens(e, s, t, returnTrap) && Survives(e, s, t, d)
    ensures SameUpTo(s, t, d)
  {
    hide Search, Called, Exhausted, HandlerCalled, HasNext, Nested, Gpr32, FrameFor;
    if e.Fault? {
      var kept := Reclaimed(s.stack, Esp(s.regs));
      assert t.stack[d] == t.stack[..|kept|][d] == kept[d] == s.stack[d];
      assert t.stack[..d] == t.stack[..|kept|][..d] == s.stack[..d];
    } else if e.HandlerReturns? {
      ReturnKeeps(s, t, returnTrap);
    }
  }

  // A handler's return changes only the top frame: it goes, or another record is tried there.
  lemma ReturnKeeps(s: Process, t: Process, returnTrap: u32)
    requires Nested(s.stack) && s.stack != [] && Returned(s, t, returnTrap)
    ensures var n := |s.stack| - 1;
            t.stack == s.stack[..n] ||
            (|t.stack| == n + 1 && t.stack[..n] == s.stack[..n]
             && t.stack[n] == s.stack[n].(record := t.stack[n].record))
  {
    hide HeadRestored, HandlerCalled, HasNext, Gpr32, ContextIs, Loaded, Resumes;
  }

  // A dispatch in flight keeps its frame through any run: the registers and the chain head it saved, where its
  // structures are, and everything below it on the stack.
  lemma {:induction false} FrameKeptThrough(states: seq<Process>, events: seq<Event>, d: nat, returnTrap: u32)
    requires IsRun(states, events, returnTrap) && SurvivesAll(states, events, d)
    ensures d < |states[|events|].stack| && SameUpTo(states[0], states[|events|], d)
    decreases |events|
  {
    hide Happens, Nested, Reclaimed;
    if events != [] {
      var n := |events| - 1;
      var before, fewer := states[..n + 1], events[..n];
      assert forall i, j :: 0 <= i < n && j == i + 1 ==> Happens(fewer[i], before[i], before[j], returnTrap);
      FrameKeptThrough(before, fewer, d, returnTrap);
      FrameKept(events[n], states[n], states[n + 1], d, returnTrap);
    }
  }

  // A fault is dispatched; handlers run, ask to continue the search or fault themselves, any number of times; at last
  // the dispatch is on top again and its chain is exhausted. Then the registers are those of the fault, the stack of
  // dispatches is what the fault had left of it, and the chain's head is the one the fault saw.
  lemma SearchEndsInFault(fault: Process, states: seq<Process>, events: seq<Event>, end: Process, e: Event,
                          returnTrap: u32)
    requires e.Fault? && Nested(fault.stack) && IsRun(states, events, returnTrap)
    requires Dispatched(fault, states[0], e.pc, e.faultAddress, e.code, e.trap, returnTrap)
    requires var d, last := |states[0].stack| - 1, states[|events|];
             && d >= 0 && SurvivesAll(states, events, d) && |last.stack| == d + 1
             && Returned(last, end, returnTrap) && Gpr32(last.regs, RAX) != 0 && !HasNext(last.bytes, last.stack[d])
    ensures end.regs == fault.regs && end.stack == Reclaimed(fault.stack, Esp(fault.regs))
    ensures if e.trap then end.terminate else end.deliver && end.deliverPc == e.pc
    ensures var last := states[|events|];
            && OnlyIn(last.bytes, end.bytes, last.regs.fsBase, last.regs.fsBase + 4)
            && (FsApart(fault.regs.fsBase, LowOf(Esp(fault.regs)), Esp(fault.regs)) &&
                Dword(fault.bytes, fault.regs.fsBase) != 0 && Has(last.bytes, last.regs.fsBase, 4) ==>
                  Dword(end.bytes, last.regs.fsBase) == Dword(fault.bytes, fault.regs.fsBase))
  {
    hide Happens, SurvivesAll, Nested, Reclaimed, Dword, HasNext, Gpr32, Staged, OnlyIn, OnlyInOr, Stored, LowOf,
         Search;
    FrameKeptThrough(states, events, |states[0].stack| - 1, returnTrap);
    var kept := Reclaimed(fault.stack, Esp(fault.regs));
    assert states[|events|].stack[..|kept|] == kept;
  }

  // The same, when the last handler asks to continue execution instead and the CONTEXT is still the one that was
  // staged: the guest goes on with the fault's general registers, flags and program counter.
  lemma ContinueEndsInFault(fault: Process, states: seq<Process>, events: seq<Event>, end: Process, e: Event,
                            returnTrap: u32)
    requires e.Fault? && Nested(fault.stack) && IsRun(states, events, returnTrap)
    requires Dispatched(fault, states[0], e.pc, e.faultAddress, e.code, e.trap, returnTrap)
    requires var d, last := |states[0].stack| - 1, states[|events|];
             && d >= 0 && SurvivesAll(states, events, d) && |last.stack| == d + 1
             && Nested(last.stack) && Returned(last, end, returnTrap) && Gpr32(last.regs, RAX) == 0
             && ContextIs(last.bytes, last.stack[d].contextPtr, fault.regs, e.pc)
             && FsApart(last.regs.fsBase, last.stack[d].contextPtr, last.stack[d].contextPtr + CONTEXT_SIZE)
    ensures end.stack == Reclaimed(fault.stack, Esp(fault.regs))
    ensures Resumes(end.regs, states[|events|].regs, fault.regs, e.pc)
    ensures end.deliver == states[|events|].deliver && end.terminate == states[|events|].terminate
  {
    hide Happens, SurvivesAll, Nested, Reclaimed, Dword, HasNext, Gpr32, Staged, OnlyIn, OnlyInOr, Stored, LowOf,
         Search,
         ContextIs, Resumes, Loaded;
    FrameKeptThrough(states, events, |states[0].stack| - 1, returnTrap);
    var kept := Reclaimed(fault.stack, Esp(fault.regs));
    assert states[|events|].stack[..|kept|] == kept;
  }
}
