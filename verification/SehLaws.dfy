// What a handler finds when it is entered, and what the guest gets back from a CONTEXT, address by address.

module SehLaws {
  import opened MachineTypes
  import opened FlatMemory
  import opened X86Registers
  import opened SehSpec
  import opened SehDispatch

  // There is room to stage a dispatch exactly when a CONTEXT of 0x2CC bytes aligned to 16 fits below the stack pointer,
  // with 0x90 bytes more below it, and all that memory is there.
  lemma RoomIs(m: Bytemap, esp: u64)
    requires esp < 0x1_0000_0000
    ensures Room(m, esp) <==>
              esp >= 0x35C && forall x :: esp - 0x2CC - (esp - 0x2CC) % 16 - 0x90 <= x < esp ==> x in m
  {
    hide Aligned, Wrap;
    WrapIs(esp as int - CONTEXT_SIZE);
    AlignedIs(Wrap(esp as int - CONTEXT_SIZE));
    WrapIs(ContextOf(esp) as int - 0x50);
    AlignedIs(Wrap(ContextOf(esp) as int - 0x50));
    WrapIs(ExcRecordOf(esp) as int - 0x40);
    if esp >= 0x35C {
      LowIs(esp);
    }
  }

  lemma LowIs(esp: u64)
    requires 0x35C <= esp < 0x1_0000_0000
    ensures LowOf(esp) as int == esp - 0x2CC - (esp - 0x2CC) % 16 - 0x90
  {
    hide Aligned, Wrap;
    var x: int, c: int := esp - 0x2CC, esp - 0x2CC - (esp - 0x2CC) % 16;
    WrapIs(x);
    RoundedDown(x);
    WrapIs(c - 0x50);
    WrapIs(c - 0x90);
  }

  lemma RoundedDown(x: u64)
    requires x >= 0x90
    ensures var c := x - x % 16; c >= 0x90 && Aligned(x) as int == c && Aligned(c - 0x50) as int == c - 0x50
  {
  }

  // Room is staged from 36 bytes below the handler's stack pointer to the stack pointer of the fault; fs:[0] is
  // elsewhere.
  predicate FsElsewhere(s: Process, t: Process) {
    s.regs.fsBase + 4 <= t.regs.gpr[RSP] as int - 36 || Reg32(s.regs, RSP) <= s.regs.fsBase
  }

  // At its entry a handler finds, from its stack pointer on: the trap to return to, the exception record, the record it
  // was registered with, and the CONTEXT of the fault. fs:[0] leads to a record that leads on to the old chain and
  // returns to the trap. All of it lies below the stack pointer of the fault.
  lemma HandlerSees(s: Process, t: Process, pc: u64, faultAddress: u64, code: u32, trap: bool, returnTrap: u32)
    returns (exc: u64, record: u64, context: u64)
    requires Dispatched(s, t, pc, faultAddress, code, trap, returnTrap) && FsElsewhere(s, t)
    ensures Search(s.bytes, Dword(s.bytes, s.regs.fsBase), returnTrap, 0) == Some(record)
    ensures CallFrameAt(t.bytes, t.regs.gpr[RSP], returnTrap, exc, record, context)
    ensures ExceptionRecordAt(t.bytes, exc, code, pc, faultAddress)
    ensures ContextAt(t.bytes, context, s.regs, pc)
    ensures t.regs.gpr[RSP] as int + 28 == exc && exc + 0x50 <= context && context + 0x2CC <= Reg32(s.regs, RSP)
    ensures context % 16 == 0 && exc % 16 == 0
    ensures Dword(t.bytes, exc - 8) == Dword(s.bytes, s.regs.fsBase) && Dword(t.bytes, exc - 4) == returnTrap
    ensures Has(s.bytes, s.regs.fsBase, 4) ==> Dword(t.bytes, s.regs.fsBase) == exc - 8
    ensures forall x :: x in s.bytes && !(t.regs.gpr[RSP] as int - 36 <= x < Reg32(s.regs, RSP)) &&
                        !(s.regs.fsBase <= x < s.regs.fsBase + 4) ==>
              x in t.bytes && t.bytes[x] == s.bytes[x]
    ensures forall i :: 0 <= i < 16 && i != RSP ==> t.regs.gpr[i] == s.regs.gpr[i]
  {
    hide Dword, Search, LowOf, ContextOf, ExcRecordOf, Reclaimed;
    var f := t.stack[|t.stack| - 1];
    exc, record, context := f.excRecordPtr, f.record, f.contextPtr;
    StagingOrder(Esp(s.regs));
    assert t.stack[|Reclaimed(s.stack, Esp(s.regs))|] == f;
    SeenFrame(t.bytes, exc - 28, exc, record, context, returnTrap);
    SeenException(t.bytes, exc, code, pc, faultAddress);
    SeenContext(t.bytes, context, s.regs, pc);
    assert forall x :: x in s.bytes <==> x in t.bytes;
  }

  // A handler that asks to continue execution gets the registers its CONTEXT holds by then, edited or not; segments and
  // everything else stay as the handler left them.
  lemma ContextTakenBack(s: Process, t: Process, returnTrap: u32)
    requires Nested(s.stack) && s.stack != [] && Returned(s, t, returnTrap) && s.regs.gpr[RAX] % 0x1_0000_0000 == 0
    ensures var a, m := s.stack[|s.stack| - 1].contextPtr, t.bytes;
            && a + 0xC8 < WORD
            && t.regs.gpr[0] == Dword(m, a + 0xB0) && t.regs.gpr[1] == Dword(m, a + 0xAC)
            && t.regs.gpr[2] == Dword(m, a + 0xA8) && t.regs.gpr[3] == Dword(m, a + 0xA4)
            && t.regs.gpr[4] == Dword(m, a + 0xC4) && t.regs.gpr[5] == Dword(m, a + 0xB4)
            && t.regs.gpr[6] == Dword(m, a + 0xA0) && t.regs.gpr[7] == Dword(m, a + 0x9C)
            && t.regs.rip == Dword(m, a + 0xB8) && t.regs.rflags == Dword(m, a + 0xC0)
            && (forall i :: 8 <= i < 16 ==> t.regs.gpr[i] == s.regs.gpr[i])
            && t.regs.segments == s.regs.segments && t.regs.fsBase == s.regs.fsBase && t.regs.others == s.regs.others
            && t.stack == s.stack[..|s.stack| - 1]
  {
    hide Dword, Loaded, HasNext, HandlerCalled, ContextIs, Resumes, HeadRestored;
    LoadedIs(s.regs, t.bytes, s.stack[|s.stack| - 1].contextPtr);
  }

  // A handler that asks to continue the search is followed by that of the next record, called with the same exception
  // record and CONTEXT, five dwords further down the stack.
  lemma NextHandlerSees(s: Process, t: Process, returnTrap: u32)
    requires Nested(s.stack) && s.stack != [] && Returned(s, t, returnTrap) && s.regs.gpr[RAX] % 0x1_0000_0000 != 0
    requires HasNext(s.bytes, s.stack[|s.stack| - 1])
    requires var sp := Reg32(s.regs, RSP); 20 <= sp && Has(s.bytes, sp - 20, 20)
    ensures var f, sp := s.stack[|s.stack| - 1], Reg32(s.regs, RSP);
            var next := Dword(s.bytes, f.record);
            && t.regs.gpr[RSP] == sp - 20
            && CallFrameAt(t.bytes, sp - 20, returnTrap, f.excRecordPtr % 0x1_0000_0000, next, f.contextPtr)
            && t.regs.rip == Dword(s.bytes, (next + 4) % WORD)
            && next != 0 && next != 0xFFFF_FFFF
            && t.stack == s.stack[..|s.stack| - 1] + [f.(record := next)]
  {
    hide Dword, Continued, Exhausted, Stored;
    var f, sp: int := s.stack[|s.stack| - 1], Reg32(s.regs, RSP);
    var next := Dword(s.bytes, f.record);
    EspSet(s.regs.gpr, sp - 20);
    WrapIs(sp - 20);
    SeenFrame(t.bytes, sp - 20, f.excRecordPtr, next, f.contextPtr, returnTrap);
  }

  // A chain ends at 0, at 0xFFFFFFFF and at a record that is not all there.
  lemma NoHandlerThere(m: Bytemap, head: u64)
    requires head == 0 || head == 0xFFFF_FFFF || (exists x :: head <= x < head + 8 && x !in m)
    ensures !HasHandler(m, Some(head))
  {
  }
}
