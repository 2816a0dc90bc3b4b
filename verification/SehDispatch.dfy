// Exception dispatch itself: a stack of nested dispatches whose frames are staged on the guest stack, and what happens
// when a handler returns.

module SehDispatch {
  import opened MachineTypes
  import opened FlatMemory
  import opened GuestMemory
  import opened X86Registers
  import opened SehSpec

  // Only the bytes of [a, b) differ.
  ghost predicate OnlyIn(m: Bytemap, m': Bytemap, a: int, b: int) {
    m'.Keys == m.Keys && forall x :: x in m && !(a <= x < b) ==> m'[x] == m[x]
  }

  // Only the bytes of [a, b) and of the dword at c differ.
  ghost predicate OnlyInOr(m: Bytemap, m': Bytemap, a: int, b: int, c: int) {
    m'.Keys == m.Keys && forall x :: x in m && !(a <= x < b) && !(c <= x < c + 4) ==> m'[x] == m[x]
  }

  // All that a dispatch or a handler's return can change.
  datatype Process = Process(regs: Registers, bytes: Bytemap, stack: seq<Frame>, deliver: bool, deliverPc: u64,
                             terminate: bool)

  // A fault has been dispatched: one more frame on what is left of the stack, and its handler is about to run.
  ghost predicate Dispatched(s: Process, t: Process, pc: u64, faultAddress: u64, code: u32, trap: bool,
                             returnTrap: u32) {
    var kept := Reclaimed(s.stack, Esp(s.regs));
    var head := Search(s.bytes, Dword(s.bytes, s.regs.fsBase), returnTrap, 0);
    && head.Some? && |t.stack| == |kept| + 1 && t.stack[..|kept|] == kept
    && FrameFor(t.stack[|kept|], head.value, s.regs, pc, trap)
    && Called(s.bytes, t.bytes, s.regs, t.regs, t.stack[|kept|], faultAddress, code, returnTrap)
    && t.deliver == s.deliver && t.deliverPc == s.deliverPc && t.terminate == s.terminate
  }

  // A fault has not been dispatched: registers and memory are as they were. Delivering a fault given back ends that.
  ghost predicate Refused(s: Process, t: Process, delivering: bool) {
    && t.regs == s.regs && t.bytes == s.bytes && t.terminate == s.terminate
    && if delivering then t.stack == s.stack && !t.deliver && t.deliverPc == 0
       else t.deliver == s.deliver && t.deliverPc == s.deliverPc
            && (t.stack == s.stack || t.stack == Reclaimed(s.stack, Esp(s.regs)))
  }

  // There is another record to try after this one.
  ghost predicate HasNext(m: Bytemap, f: Frame) { Has(m, f.record, 4) && HasHandler(m, Some(Dword(m, f.record))) }

  // A handler has returned.
  ghost predicate Returned(s: Process, t: Process, returnTrap: u32)
    requires Nested(s.stack) && s.stack != []
  {
    var f, rest := s.stack[|s.stack| - 1], s.stack[..|s.stack| - 1];
    if Gpr32(s.regs, RAX) == 0 then Continued(s, t, f, rest)
    else if HasNext(s.bytes, f) then
      && t.stack == rest + [f.(record := Dword(s.bytes, f.record))]
      && t.deliver == s.deliver && t.deliverPc == s.deliverPc && t.terminate == s.terminate
      && HandlerCalled(s, t, t.stack[|t.stack| - 1], returnTrap)
    else Exhausted(s, t, f, rest)
  }

  // Continue execution: the registers come from the CONTEXT, which brings back the fault's own if nobody touched it.
  ghost predicate Continued(s: Process, t: Process, f: Frame, rest: seq<Frame>)
    requires f.contextPtr + CONTEXT_SIZE <= 0x1_0000_0000
  {
    && t.stack == rest && t.deliver == s.deliver && t.deliverPc == s.deliverPc && t.terminate == s.terminate
    && HeadRestored(s.bytes, t.bytes, s.regs.fsBase, f.savedHead)
    && t.regs == Loaded(s.regs, t.bytes, f.contextPtr)
    && (ContextIs(s.bytes, f.contextPtr, f.faultRegs, f.faultingPc)
        && FsApart(s.regs.fsBase, f.contextPtr, f.contextPtr + CONTEXT_SIZE) ==>
          Resumes(t.regs, s.regs, f.faultRegs, f.faultingPc))
  }

  // Continue search, with a record left: its handler is called like the first.
  ghost predicate HandlerCalled(s: Process, t: Process, f: Frame, returnTrap: u32) {
    var esp := Esp(s.regs);
    && t.regs ==
         s.regs.(gpr := SetGpr(s.regs.gpr, RSP, 4, Wrap(esp as int - 20)), rip := Dword(s.bytes, Wrap(f.record + 4)))
    && t.bytes == Pushed(s.bytes, esp, CallArguments(f.contextPtr, f.record, f.excRecordPtr, returnTrap))
    && (esp >= 20 ==> OnlyIn(s.bytes, t.bytes, esp - 20, esp))
    && (esp >= 20 && Has(s.bytes, esp - 20, 20) ==>
          Stored(t.bytes, esp - 20, 20, CallFields(f.contextPtr, f.record, f.excRecordPtr, returnTrap), 5))
  }

  // Continue search, with no record left: the exact registers of the fault are back, and a fault is to be raised again.
  ghost predicate Exhausted(s: Process, t: Process, f: Frame, rest: seq<Frame>) {
    && t.stack == rest && t.regs == f.faultRegs
    && HeadRestored(s.bytes, t.bytes, s.regs.fsBase, f.savedHead)
    && (if f.trap then t.terminate && t.deliver == s.deliver && t.deliverPc == s.deliverPc
        else t.deliver && t.deliverPc == f.faultingPc && t.terminate == s.terminate)
  }

  class Seh {
    const guest: Guest
    const supported: bool         // a 32-bit x86 process
    const returnTrap: u32         // where handlers return to; 0 when there is none
    var regs: Registers
    var stack: seq<Frame>
    var deliver: bool
    var deliverPc: u64
    var terminate: bool

    ghost predicate Valid()
      reads this
    {
      Nested(stack)
    }

    // Every dispatch in flight still has the CONTEXT of its own fault.
    ghost predicate Intact()
      reads this, guest
    {
      AllIntact(guest.bytes, stack)
    }

    ghost function State(): Process
      reads this, guest
    {
      Process(regs, guest.bytes, stack, deliver, deliverPc, terminate)
    }

    constructor (guest: Guest, supported: bool, returnTrap: u32, regs: Registers)
      ensures Valid() && stack == [] && !deliver && !terminate
      ensures this.guest == guest && this.supported == supported && this.returnTrap == returnTrap && this.regs == regs
    {
      this.guest, this.supported, this.returnTrap, this.regs := guest, supported, returnTrap, regs;
      stack, deliver, deliverPc, terminate := [], false, 0, false;
    }

    method ReadDword(a: u64) returns (v: u32, ok: bool)
      ensures v == Dword(guest.bytes, a) && (ok <==> Has(guest.bytes, a, 4))
    {
      DwordBound(guest.bytes, a);
      v, ok := guest.ReadSized(a, 4);
    }

    method WriteDword(a: u64, v: u32)
      modifies guest
      ensures guest.bytes == StoreIf(old(guest.bytes), a, 4, v)
      ensures OnlyIn(old(guest.bytes), guest.bytes, a, a + 4)
      ensures Has(old(guest.bytes), a, 4) ==> Dword(guest.bytes, a) == v
    {
      ghost var m := guest.bytes;
      var ok := guest.WriteSized(a, 4, v);
      if ok {
        DwordStored(m, a, v);
      }
    }

    // Stores field k of a structure, of which memory was m before the first.
    method Put(base: u64, ghost size: nat, offset: nat, value: u32, ghost fields: seq<Field>, ghost k: nat,
               ghost m: Bytemap)
      requires k < |fields| && fields[k] == Field(offset, value) && offset + 4 <= size
      requires Stored(guest.bytes, base, size, fields, k) && Has(guest.bytes, base, size)
      requires FieldsApart(fields) && OnlyIn(m, guest.bytes, base, base + size)
      modifies guest
      ensures Stored(guest.bytes, base, size, fields, k + 1) && Has(guest.bytes, base, size)
      ensures OnlyIn(m, guest.bytes, base, base + size)
      ensures BlankElse(old(guest.bytes), base, size, fields) ==> BlankElse(guest.bytes, base, size, fields)
    {
      hide Dword, Stored, FieldsApart, BlankElse, OnlyIn;
      ghost var before := guest.bytes;
      StoredFits(before, base, size, fields, k);
      HasPart(before, base, size, offset);
      WriteDword(base + offset, value);
      OnlyInKeeps(before, guest.bytes, base + offset, base + offset + 4);
      OnlyInStep(m, before, guest.bytes, base, base + size, base + offset);
      StoredStep(before, guest.bytes, base, size, fields, k);
      BlankStep(before, guest.bytes, base, size, fields, k);
    }

    method WriteContext(context: u64, r: Registers, eip: u64)
      requires context + CONTEXT_SIZE <= 0x1_0000_0000 && Has(guest.bytes, context, CONTEXT_SIZE)
      modifies guest
      ensures ContextIs(guest.bytes, context, r, eip) && BlankElse(guest.bytes, context, CONTEXT_SIZE, Fields(r, eip))
      ensures OnlyIn(old(guest.bytes), guest.bytes, context, context + CONTEXT_SIZE)
    {
      hide Stored, Gpr32, Low32, Has, FieldsApart, BlankElse;
      ghost var f, m := Fields(r, eip), guest.bytes;
      FieldsAreApart(r, eip);
      var _ := guest.Write(context, seq(CONTEXT_SIZE, _ => 0));
      StartsStored(m, guest.bytes, context, f);
      Put(context, CONTEXT_SIZE, 0x00, 0x0001_0007, f, 0, m);
      Put(context, CONTEXT_SIZE, 0x8C, r.segments.gs, f, 1, m);
      Put(context, CONTEXT_SIZE, 0x90, r.segments.fs, f, 2, m);
      Put(context, CONTEXT_SIZE, 0x94, r.segments.es, f, 3, m);
      Put(context, CONTEXT_SIZE, 0x98, r.segments.ds, f, 4, m);
      WriteIntegers(context, r, eip);
      WriteControl(context, r, eip);
    }

    // The CONTEXT_INTEGER part.
    method WriteIntegers(context: u64, r: Registers, ghost eip: u64)
      requires Stored(guest.bytes, context, CONTEXT_SIZE, Fields(r, eip), 5) && Has(guest.bytes, context, CONTEXT_SIZE)
      modifies guest
      ensures Stored(guest.bytes, context, CONTEXT_SIZE, Fields(r, eip), 12) && Has(guest.bytes, context, CONTEXT_SIZE)
      ensures OnlyIn(old(guest.bytes), guest.bytes, context, context + CONTEXT_SIZE)
      ensures BlankElse(old(guest.bytes), context, CONTEXT_SIZE, Fields(r, eip)) ==>
                BlankElse(guest.bytes, context, CONTEXT_SIZE, Fields(r, eip))
    {
      hide Stored, Gpr32, Low32, Has, FieldsApart, BlankElse, OnlyIn;
      ghost var f, m := Fields(r, eip), guest.bytes;
      OnlyInSame(m, context, context + CONTEXT_SIZE);
      FieldsAreApart(r, eip);
      Put(context, CONTEXT_SIZE, 0x9C, Gpr32(r, RDI), f, 5, m);
      Put(context, CONTEXT_SIZE, 0xA0, Gpr32(r, RSI), f, 6, m);
      Put(context, CONTEXT_SIZE, 0xA4, Gpr32(r, RBX), f, 7, m);
      Put(context, CONTEXT_SIZE, 0xA8, Gpr32(r, RDX), f, 8, m);
      Put(context, CONTEXT_SIZE, 0xAC, Gpr32(r, RCX), f, 9, m);
      Put(context, CONTEXT_SIZE, 0xB0, Gpr32(r, RAX), f, 10, m);
      Put(context, CONTEXT_SIZE, 0xB4, Gpr32(r, RBP), f, 11, m);
    }

    // The CONTEXT_CONTROL part.
    method WriteControl(context: u64, r: Registers, eip: u64)
      requires Stored(guest.bytes, context, CONTEXT_SIZE, Fields(r, eip), 12) && Has(guest.bytes, context, CONTEXT_SIZE)
      modifies guest
      ensures Stored(guest.bytes, context, CONTEXT_SIZE, Fields(r, eip), 17) && Has(guest.bytes, context, CONTEXT_SIZE)
      ensures OnlyIn(old(guest.bytes), guest.bytes, context, context + CONTEXT_SIZE)
      ensures BlankElse(old(guest.bytes), context, CONTEXT_SIZE, Fields(r, eip)) ==>
                BlankElse(guest.bytes, context, CONTEXT_SIZE, Fields(r, eip))
    {
      hide Stored, Gpr32, Low32, Has, FieldsApart, BlankElse, OnlyIn;
      ghost var f, m := Fields(r, eip), guest.bytes;
      OnlyInSame(m, context, context + CONTEXT_SIZE);
      FieldsAreApart(r, eip);
      Put(context, CONTEXT_SIZE, 0xB8, Low32(eip), f, 12, m);
      Put(context, CONTEXT_SIZE, 0xBC, r.segments.cs, f, 13, m);
      Put(context, CONTEXT_SIZE, 0xC0, Low32(r.rflags), f, 14, m);
      Put(context, CONTEXT_SIZE, 0xC4, Gpr32(r, RSP), f, 15, m);
      Put(context, CONTEXT_SIZE, 0xC8, r.segments.ss, f, 16, m);
    }

    method LoadContext(context: u64)
      requires context + CONTEXT_SIZE <= 0x1_0000_0000
      modifies `regs
      ensures regs == Loaded(old(regs), guest.bytes, context)
    {
      hide SetGpr, Dword;
      var v, ok := ReadDword(context + 0x9C);
      regs := regs.(gpr := SetGpr(regs.gpr, RDI, 4, v));
      v, ok := ReadDword(context + 0xA0);
      regs := regs.(gpr := SetGpr(regs.gpr, RSI, 4, v));
      v, ok := ReadDword(context + 0xA4);
      regs := regs.(gpr := SetGpr(regs.gpr, RBX, 4, v));
      v, ok := ReadDword(context + 0xA8);
      regs := regs.(gpr := SetGpr(regs.gpr, RDX, 4, v));
      v, ok := ReadDword(context + 0xAC);
      regs := regs.(gpr := SetGpr(regs.gpr, RCX, 4, v));
      v, ok := ReadDword(context + 0xB0);
      regs := regs.(gpr := SetGpr(regs.gpr, RAX, 4, v));
      v, ok := ReadDword(context + 0xB4);
      regs := regs.(gpr := SetGpr(regs.gpr, RBP, 4, v));
      v, ok := ReadDword(context + 0xC0);
      regs := regs.(rflags := v);
      v, ok := ReadDword(context + 0xC4);
      regs := regs.(gpr := SetGpr(regs.gpr, RSP, 4, v));
      v, ok := ReadDword(context + 0xB8);
      regs := regs.(rip := v);
    }

    method WriteExcRecord(exc: u64, pc: u64, faultAddress: u64, code: u32)
      requires exc + 0x50 <= 0x1_0000_0000 && Has(guest.bytes, exc, 0x50)
      modifies guest
      ensures Stored(guest.bytes, exc, 0x50, ExcFields(code, pc, faultAddress), 7)
      ensures OnlyIn(old(guest.bytes), guest.bytes, exc, exc + 0x50)
    {
      hide Low32, Has, Stored, FieldsApart, OnlyIn, BlankElse;
      ghost var f, m := ExcFields(code, pc, faultAddress), guest.bytes;
      OnlyInSame(m, exc, exc + 0x50);
      ExcFieldsAreApart(code, pc, faultAddress);
      assert Stored(guest.bytes, exc, 0x50, f, 0) by { NothingStored(guest.bytes, exc, 0x50, f); }
      Put(exc, 0x50, 0x00, code, f, 0, m);
      Put(exc, 0x50, 0x04, 0, f, 1, m);
      Put(exc, 0x50, 0x08, 0, f, 2, m);
      Put(exc, 0x50, 0x0C, Low32(pc), f, 3, m);
      Put(exc, 0x50, 0x10, if code == ACCESS_VIOLATION then 2 else 0, f, 4, m);
      Put(exc, 0x50, 0x14, 0, f, 5, m);
      Put(exc, 0x50, 0x18, Low32(faultAddress), f, 6, m);
    }

    // Makes a record that leads to the current chain the head of it.
    method InstallNested(nested: u32) returns (savedHead: u32)
      requires nested + 8 <= U64_MAX as int && Has(guest.bytes, nested, 8)
      modifies guest
      ensures savedHead == Dword(old(guest.bytes), regs.fsBase)
      ensures OnlyInOr(old(guest.bytes), guest.bytes, nested, nested + 8, regs.fsBase)
      ensures FsApart(regs.fsBase, nested, nested + 8) ==>
                && Dword(guest.bytes, nested) == savedHead && Dword(guest.bytes, nested + 4) == returnTrap
                && (Has(old(guest.bytes), regs.fsBase, 4) ==> Dword(guest.bytes, regs.fsBase) == nested)
    {
      hide Dword;
      ghost var m := guest.bytes;
      var head, headOk := ReadDword(regs.fsBase);
      savedHead := head;
      WriteDword(nested, head);
      ghost var m1 := guest.bytes;
      KeepsHas(m, m1);
      WriteDword(nested + 4, returnTrap);
      ghost var m2 := guest.bytes;
      KeepsHas(m, m2);
      DwordFrame(m1, m2, nested);
      WriteDword(regs.fsBase, nested);
      if FsApart(regs.fsBase, nested, nested + 8) {
        DwordFrame(m2, guest.bytes, nested);
        DwordFrame(m2, guest.bytes, nested + 4);
      }
    }

    // Stages the CONTEXT, the exception record and the nested registration record below the faulting stack pointer,
    // and makes the nested record the head of the chain.
    method BuildFrame(faultingPc: u64, faultAddress: u64, code: u32)
      returns (ok: bool, context: u64, exc: u64, savedHead: u32)
      modifies guest, `regs
      ensures ok <==> Room(old(guest.bytes), Esp(old(regs)))
      ensures !ok ==> regs == old(regs) && guest.bytes == old(guest.bytes)
      ensures ok ==>
                && context == ContextOf(Esp(old(regs))) && exc == ExcRecordOf(Esp(old(regs))) && exc >= 8
                && regs == old(regs).(gpr := SetGpr(old(regs).gpr, RSP, 4, exc - 8))
                && OnlyInOr(old(guest.bytes), guest.bytes, exc - 8, context + CONTEXT_SIZE, regs.fsBase)
                && (FsApart(regs.fsBase, exc - 8, context + CONTEXT_SIZE) ==>
                      Staged(old(guest.bytes), guest.bytes, old(regs), context, exc, faultingPc, faultAddress, code,
                             returnTrap)
                      && savedHead == Dword(old(guest.bytes), regs.fsBase)
                      && ContextAt(guest.bytes, context, old(regs), faultingPc)
                      && ExceptionRecordAt(guest.bytes, exc, code, faultingPc, faultAddress))
    {
      hide Dword, ContextIs, SetGpr, Stored, OnlyIn, OnlyInOr, Staged, Room, ContextOf, ExcRecordOf, LowOf, ContextAt,
           ExceptionRecordAt;
      var esp := Esp(regs);
      context, exc, savedHead, ok := ContextOf(esp), ExcRecordOf(esp), 0, false;
      var low := LowOf(esp);
      ghost var m := guest.bytes;
      if low >= esp {
        NoRoom(m, esp);
        return;
      }
      var room := guest.IsCommitted(low, esp - low);
      RoomIs(m, esp);
      if !room {
        return;
      }
      StagingOrder(esp);
      HasParts(m, low, esp, context, exc);
      WriteContext(context, regs, faultingPc);
      ghost var m1 := guest.bytes;
      OnlyInKeeps(m, m1, context, context + CONTEXT_SIZE);
      WriteExcRecord(exc, faultingPc, faultAddress, code);
      ghost var m2 := guest.bytes;
      OnlyInKeeps(m1, m2, exc, exc + 0x50);
      savedHead := InstallNested(exc - 8);
      StagedBy(m, m1, m2, guest.bytes, regs, context, exc, faultingPc, faultAddress, code, returnTrap);
      StagedSeen(m, guest.bytes, regs, context, exc, faultingPc, faultAddress, code, returnTrap);
      regs := regs.(gpr := SetGpr(regs.gpr, RSP, 4, exc - 8));
      ok := true;
    }

    // Pushes the arguments of the top dispatch's handler and jumps to it.
    method CallHandler()
      requires stack != []
      modifies guest, `regs
      ensures HandlerCalled(old(State()), State(), stack[|stack| - 1], returnTrap)
    {
      hide Dword, SetGpr, Gpr32, Stored, Low32, Has, OnlyIn, FieldsApart, Wrap, Pushed, StoreIf, CallArguments,
           CallFields;
      var frame := stack[|stack| - 1];
      var handler, ok := ReadDword(Wrap(frame.record + 4));
      var esp: u64 := Esp(regs);
      ghost var esp0, m, f :=
        esp as int, guest.bytes, CallFields(frame.contextPtr, frame.record, frame.excRecordPtr, returnTrap);
      CallFieldsAreApart(frame.contextPtr, frame.record, frame.excRecordPtr, returnTrap);
      var args := CallArguments(frame.contextPtr, frame.record, frame.excRecordPtr, returnTrap);
      WrapIs(esp0);
      if esp0 >= 20 {
        OnlyInSame(m, esp0 - 20, esp0);
        NothingStored(m, esp0 - 20, 20, f);
      }
      for i := 0 to 5
        invariant esp == Wrap(esp0 - 4 * i) && regs == old(regs)
        invariant Pushed(m, Esp(regs), args) == Pushed(guest.bytes, esp, args[i..])
        invariant esp0 >= 20 ==> OnlyIn(m, guest.bytes, esp0 - 20, esp0)
        invariant esp0 >= 20 && Has(m, esp0 - 20, 20) ==> Stored(guest.bytes, esp0 - 20, 20, f, i)
      {
        WrapStep(esp0, i);
        PushedStep(guest.bytes, esp, args[i..]);
        CallFieldIs(frame.contextPtr, frame.record, frame.excRecordPtr, returnTrap, i);
        esp := Wrap(esp as int - 4);
        ghost var m1 := guest.bytes;
        WriteDword(esp, args[i]);
        if esp0 >= 20 {
          assert f[i] == Field(16 - 4 * i, args[i]) && esp as int == esp0 - 20 + f[i].offset;
          OnlyInStep(m, m1, guest.bytes, esp0 - 20, esp0, esp);
          if Has(m, esp0 - 20, 20) {
            OnlyInKeeps(m, m1, esp0 - 20, esp0);
            HasPart(m1, esp0 - 20, 20, 16 - 4 * i);
            StoredStep(m1, guest.bytes, esp0 - 20, 20, f, i);
          }
        }
      }
      assert args[5..] == [];
      NothingPushed(guest.bytes, esp);
      regs := regs.(gpr := SetGpr(regs.gpr, RSP, 4, esp));
      regs := regs.(rip := handler);
    }

    // The record whose handler is to be tried first, past the nested records of dispatches in flight.
    method FindHandler() returns (head: Option<u64>)
      requires Has(guest.bytes, regs.fsBase, 4)
      ensures head == Search(guest.bytes, Dword(guest.bytes, regs.fsBase), returnTrap, 0)
    {
      hide Dword, Committed, Has;
      var current, bOk := ReadDword(regs.fsBase);
      var skip := 0;
      while true
        invariant skip <= MAX_SKIPS
        invariant Search(guest.bytes, current, returnTrap, skip) ==
                    Search(guest.bytes, Dword(guest.bytes, regs.fsBase), returnTrap, 0)
        decreases MAX_SKIPS - skip
      {
        var committed := guest.IsCommitted(current, 8);
        if !committed {
          break;
        }
        var handler, _ := ReadDword(current as int + 4);
        if handler != returnTrap || skip >= MAX_SKIPS {
          break;
        }
        var establisher, _ := ReadDword(current);
        var below := guest.IsCommitted(establisher, 8);
        if !below {
          return None;
        }
        current, bOk := ReadDword(establisher);
        skip := skip + 1;
      }
      head := Some(current);
    }

    // This fault was already offered to every handler and is now to be delivered.
    predicate Delivering(pc: u64)
      reads this
    {
      supported && returnTrap != 0 && deliver && pc == deliverPc
    }

    // A handler will be called: dispatch works here, is not 16 deep, finds a handler, and has room on the stack.
    ghost predicate CanDispatch(pc: u64)
      reads this, guest
    {
      && supported && returnTrap != 0 && !Delivering(pc)
      && |Reclaimed(stack, Esp(regs))| < MAX_DEPTH
      && Has(guest.bytes, regs.fsBase, 4)
      && HasHandler(guest.bytes, Search(guest.bytes, Dword(guest.bytes, regs.fsBase), returnTrap, 0))
      && Room(guest.bytes, Esp(regs))
    }

    // Drops the dispatches whose staged region the stack pointer has left behind.
    method Reclaim(esp: u64)
      modifies `stack
      ensures stack == Reclaimed(old(stack), esp)
    {
      while stack != [] && esp >= stack[|stack| - 1].stagedTop
        invariant Reclaimed(stack, esp) == Reclaimed(old(stack), esp)
        decreases |stack|
      {
        stack := stack[..|stack| - 1];
      }
    }

    // Stages one more dispatch and calls its handler.
    method Stage(record: u64, faultingPc: u64, faultAddress: u64, code: u32, trap: bool) returns (ok: bool)
      requires Nested(stack) && |stack| < MAX_DEPTH && (stack != [] ==> Esp(regs) < stack[|stack| - 1].stagedTop)
      modifies `regs, `stack, guest
      ensures Nested(stack)
      ensures ok <==> Room(old(guest.bytes), Esp(old(regs)))
      ensures !ok ==> regs == old(regs) && stack == old(stack) && guest.bytes == old(guest.bytes)
      ensures ok ==>
                && |stack| == |old(stack)| + 1 && stack[..|old(stack)|] == old(stack)
                && FrameFor(stack[|old(stack)|], record, old(regs), faultingPc, trap)
                && Called(old(guest.bytes), guest.bytes, old(regs), regs, stack[|old(stack)|], faultAddress, code,
                          returnTrap)
    {
      hide Dword, ContextIs, SetGpr, Staged, Room, OnlyIn, OnlyInOr, Stored, Called, Nested, LowOf, ContextOf,
           ExcRecordOf;
      ghost var m, regs0 := guest.bytes, regs;
      var faultRegs := regs;
      var built, context, exc, savedHead := BuildFrame(faultingPc, faultAddress, code);
      if !built {
        return false;
      }
      ghost var m1 := guest.bytes;
      RoomOrder(m, Esp(regs0));
      var frame := Frame(record, context, exc, faultingPc, savedHead, context, trap, faultRegs);
      Deeper(stack, frame, Esp(regs0));
      stack := stack + [frame];
      EspSet(regs0.gpr, exc - 8);
      ghost var regs1 := regs;
      CallHandler();
      CalledBy(m, m1, guest.bytes, regs0, regs1, regs, frame, faultAddress, code, returnTrap);
      ok := true;
    }

    // Delivers a hardware exception to the guest's handlers. When it refuses, registers and memory are as they were.
    method Dispatch(faultingPc: u64, faultAddress: u64, code: u32, trap: bool) returns (ok: bool)
      requires Valid()
      modifies this, guest
      ensures Valid()
      ensures ok <==> old(CanDispatch(faultingPc))
      ensures !ok ==> Refused(old(State()), State(), old(Delivering(faultingPc)))
      ensures ok ==> Dispatched(old(State()), State(), faultingPc, faultAddress, code, trap, returnTrap)
      ensures old(Intact()) && ok && FsClear(regs.fsBase, stack)
              && FsApart(regs.fsBase, LowOf(Esp(old(regs))), Esp(old(regs))) ==>
                Intact()
    {
      hide Dword, Committed, Has, Search, Room, Nested, FrameFor, Called, ContextIs, Reclaimed, LowOf;
      if !supported || returnTrap == 0 {
        return false;
      }
      if deliver && faultingPc == deliverPc {
        deliver, deliverPc := false, 0;
        return false;
      }
      ghost var stack0, m, regs0 := stack, guest.bytes, regs;
      Reclaim(Esp(regs));
      ReclaimedNested(stack0, Esp(regs));
      if |stack| >= MAX_DEPTH {
        return false;
      }
      var headDword, bOk := ReadDword(regs.fsBase);
      if !bOk {
        return false;
      }
      var head := FindHandler();
      if head.None? || head.value == 0 || head.value == END_OF_CHAIN {
        return false;
      }
      var usable := guest.IsCommitted(head.value, 8);
      if !usable {
        return false;
      }
      ghost var kept := stack;
      ok := Stage(head.value, faultingPc, faultAddress, code, trap);
      if ok {
        IntactAfter(m, guest.bytes, stack0, kept, stack, regs0, regs, faultAddress, code, returnTrap, head.value,
                    faultingPc, trap);
      }
    }

    // A handler has returned to the trap: resume, try the next record, or give the fault back.
    method HandlerReturned()
      requires Valid() && stack != []
      modifies this, guest
      ensures Valid()
      ensures Returned(old(State()), State(), returnTrap)
    {
      hide Dword, Committed, Has, Nested, ContextIs, Loaded, SetGpr, Gpr32, OnlyIn, Resumes, Stored;
      var disposition := Gpr32(regs, RAX);
      var frame := stack[|stack| - 1];
      ghost var m, regs0 := guest.bytes, regs;
      TopContext(stack, Dword(m, frame.record));
      if disposition == 0 {
        RestoreHead(frame.savedHead);
        ghost var m1 := guest.bytes;
        LoadContext(frame.contextPtr);
        stack := stack[..|stack| - 1];
        if ContextIs(m, frame.contextPtr, frame.faultRegs, frame.faultingPc)
           && FsApart(regs0.fsBase, frame.contextPtr, frame.contextPtr + CONTEXT_SIZE) {
          HeadKeepsContext(m, m1, regs0.fsBase, frame.savedHead, frame.contextPtr, frame.faultRegs, frame.faultingPc);
          ContextRoundTrip(m1, frame.contextPtr, frame.faultRegs, frame.faultingPc, regs0);
        }
        return;
      }
      var next, bOk := ReadDword(frame.record);
      if bOk && next != 0 && next != END_OF_CHAIN {
        var usable := guest.IsCommitted(next, 8);
        if usable {
          stack := stack[|stack| - 1 := frame.(record := next)];
          CallHandler();
          return;
        }
      }
      RestoreHead(frame.savedHead);
      regs := frame.faultRegs;
      stack := stack[..|stack| - 1];
      if frame.trap {
        terminate := true;
        return;
      }
      deliver, deliverPc := true, frame.faultingPc;
    }

    method RestoreHead(savedHead: u32)
      modifies guest
      ensures HeadRestored(old(guest.bytes), guest.bytes, regs.fsBase, savedHead)
    {
      hide Dword;
      if savedHead != 0 {
        WriteDword(regs.fsBase, savedHead);
      }
    }
  }

  ghost predicate FsApart(fsBase: u64, a: int, b: int) { fsBase + 4 <= a || b <= fsBase }

  ghost predicate FsClear(fsBase: u64, stack: seq<Frame>) {
    forall i :: 0 <= i < |stack| ==> FsApart(fsBase, stack[i].contextPtr, stack[i].contextPtr + CONTEXT_SIZE)
  }

  ghost predicate AllIntact(m: Bytemap, stack: seq<Frame>) {
    forall i :: 0 <= i < |stack| ==> ContextIs(m, stack[i].contextPtr, stack[i].faultRegs, stack[i].faultingPc)
  }

  // The frame of a dispatch of the given fault to the given record.
  ghost predicate FrameFor(f: Frame, record: u64, fault: Registers, pc: u64, trap: bool) {
    && f.record == record && f.faultingPc == pc && f.trap == trap && f.faultRegs == fault
    && f.contextPtr == f.stagedTop == ContextOf(Esp(fault)) && f.excRecordPtr == ExcRecordOf(Esp(fault))
    && LowOf(Esp(fault)) < Esp(fault)
  }

  // The handler's address lies outside what a dispatch writes.
  predicate HandlerApart(a: u64, fsBase: u64, esp: u64) {
    (a + 4 <= LowOf(esp) || esp <= a) && (a + 4 <= fsBase || fsBase + 4 <= a)
  }

  // From registers and memory at the fault to those at the handler's entry.
  ghost predicate Called(m: Bytemap, m': Bytemap, r: Registers, r': Registers, f: Frame, faultAddress: u64, code: u32,
                         trap: u32)
  {
    var esp := Esp(r);
    && 28 <= f.excRecordPtr < 0x1_0000_0000
    && r'.gpr == r.gpr[RSP := f.excRecordPtr - 28]
    && r'.(gpr := r.gpr, rip := r.rip) == r
    && (HandlerApart(Wrap(f.record + 4), r.fsBase, esp) ==> r'.rip == Dword(m, Wrap(f.record + 4)))
    && OnlyInOr(m, m', LowOf(esp), esp, r.fsBase)
    && (FsApart(r.fsBase, LowOf(esp), esp) ==>
          && f.savedHead == Dword(m, r.fsBase)
          && Staged(m, m', r, f.contextPtr, f.excRecordPtr, f.faultingPc, faultAddress, code, trap)
          && Stored(m', f.excRecordPtr - 28, 20, CallFields(f.contextPtr, f.record, f.excRecordPtr, trap), 5))
  }

  lemma RoomOrder(m: Bytemap, esp: u32)
    requires Room(m, esp)
    ensures LowOf(esp) < esp && LowOf(esp) + 0x40 == ExcRecordOf(esp) && ExcRecordOf(esp) + 0x50 <= ContextOf(esp)
    ensures ContextOf(esp) + CONTEXT_SIZE <= esp && Has(m, LowOf(esp), esp - LowOf(esp))
  {
    StagingOrder(esp);
  }

  // A frame staged below the stack pointer, itself below the last frame, goes deeper.
  lemma Deeper(stack: seq<Frame>, f: Frame, esp: u32)
    requires Nested(stack) && |stack| < MAX_DEPTH && (stack != [] ==> esp < stack[|stack| - 1].stagedTop)
    requires f.stagedTop == f.contextPtr && f.contextPtr + CONTEXT_SIZE <= esp
    ensures Nested(stack + [f])
  {
    var t := stack + [f];
    forall i, j | 0 <= i < j < |t| ensures t[j].stagedTop + CONTEXT_SIZE <= t[i].stagedTop {
      if j == |stack| && i < |stack| - 1 {
        assert stack[|stack| - 1].stagedTop + CONTEXT_SIZE <= stack[i].stagedTop;
      }
    }
  }

  lemma EspSet(g: Gprs, v: u64)
    requires v < 0x1_0000_0000
    ensures SetGpr(g, RSP, 4, v) == g[RSP := v] && GetGpr(g[RSP := v], RSP, 4) == v
  {
  }

  lemma {:induction false} ReclaimedNested(stack: seq<Frame>, esp: u64)
    requires Nested(stack)
    ensures Nested(Reclaimed(stack, esp))
  {
    hide Reclaimed;
    var kept := Reclaimed(stack, esp);
    assert forall i :: 0 <= i < |kept| ==> kept[i] == stack[i];
  }

  lemma CalledBy(m: Bytemap, m1: Bytemap, m': Bytemap, r: Registers, r1: Registers, r': Registers, f: Frame,
                 faultAddress: u64, code: u32, trap: u32)
    requires LowOf(Esp(r)) < Esp(r) && Has(m, LowOf(Esp(r)), Esp(r) - LowOf(Esp(r)))
    requires f.contextPtr == ContextOf(Esp(r)) && f.excRecordPtr == ExcRecordOf(Esp(r))
    requires LowOf(Esp(r)) + 0x40 == f.excRecordPtr && f.excRecordPtr + 0x50 <= f.contextPtr
             && f.contextPtr + CONTEXT_SIZE <= Esp(r)
    requires r1 == r.(gpr := SetGpr(r.gpr, RSP, 4, f.excRecordPtr - 8))
    requires OnlyInOr(m, m1, f.excRecordPtr - 8, f.contextPtr + CONTEXT_SIZE, r.fsBase)
    requires FsApart(r.fsBase, f.excRecordPtr - 8, f.contextPtr + CONTEXT_SIZE) ==>
               && Staged(m, m1, r, f.contextPtr, f.excRecordPtr, f.faultingPc, faultAddress, code, trap)
               && f.savedHead == Dword(m, r.fsBase)
    requires r' == r1.(gpr := SetGpr(r1.gpr, RSP, 4, Wrap(Esp(r1) as int - 20)), rip := Dword(m1, Wrap(f.record + 4)))
    requires Esp(r1) >= 20 ==> OnlyIn(m1, m', Esp(r1) - 20, Esp(r1))
    requires Esp(r1) >= 20 && Has(m1, Esp(r1) - 20, 20) ==>
               Stored(m', Esp(r1) - 20, 20, CallFields(f.contextPtr, f.record, f.excRecordPtr, trap), 5)
    ensures Called(m, m', r, r', f, faultAddress, code, trap)
  {
    hide Dword, Staged, Stored, SetGpr, GetGpr, LowOf, ContextOf, ExcRecordOf, CallFields;
    var exc := f.excRecordPtr;
    EspSet(r.gpr, exc - 8);
    assert Esp(r1) == exc - 8;
    EspSet(r1.gpr, exc - 28);
    KeepsHas(m, m1);
    HasSpan(m, LowOf(Esp(r)), Esp(r) - LowOf(Esp(r)), exc - 28, 20);
    assert r1.gpr[RSP := exc - 28] == r.gpr[RSP := exc - 28];
    assert forall x :: x in m <==> x in m1;
    if HandlerApart(Wrap(f.record + 4), r.fsBase, Esp(r)) {
      DwordFrame(m, m1, Wrap(f.record + 4));
    }
    if FsApart(r.fsBase, LowOf(Esp(r)), Esp(r)) {
      StagedKept(m, m1, m', r, f.contextPtr, exc, f.faultingPc, faultAddress, code, trap);
    }
  }

  lemma HasSpan(m: Bytemap, a: int, n: int, b: int, k: nat)
    requires Has(m, a, n) && a <= b && b + k <= a + n
    ensures Has(m, b, k)
  {
  }

  lemma StagedKept(m: Bytemap, m1: Bytemap, m': Bytemap, r: Registers, context: u64, exc: u64, pc: u64,
                   faultAddress: u64, code: u32, trap: u32)
    requires Staged(m, m1, r, context, exc, pc, faultAddress, code, trap) && exc >= 28 && exc + 0x50 <= context
    requires OnlyIn(m1, m', exc - 28, exc - 8) && FsApart(r.fsBase, exc - 28, exc - 8)
    ensures Staged(m, m', r, context, exc, pc, faultAddress, code, trap)
  {
    hide Dword, Stored, Fields, ExcFields;
    StoredFrame(m1, m', context, CONTEXT_SIZE, Fields(r, pc), 17);
    StoredFrame(m1, m', exc, 0x50, ExcFields(code, pc, faultAddress), 7);
    DwordFrame(m1, m', exc - 8);
    DwordFrame(m1, m', exc - 4);
    DwordFrame(m1, m', r.fsBase);
  }

  // A new dispatch leaves the CONTEXTs of those in flight alone, and its own is right.
  lemma IntactAfter(m: Bytemap, m': Bytemap, stack0: seq<Frame>, kept: seq<Frame>, stack: seq<Frame>, r: Registers,
                    r': Registers, faultAddress: u64, code: u32, trap: u32, record: u64, pc: u64, isTrap: bool)
    requires Nested(stack) && |stack| == |kept| + 1 && stack[..|kept|] == kept
    requires |kept| <= |stack0| && kept == stack0[..|kept|]
    requires kept != [] ==> Esp(r) < kept[|kept| - 1].stagedTop
    requires FrameFor(stack[|kept|], record, r, pc, isTrap)
             && Called(m, m', r, r', stack[|kept|], faultAddress, code, trap)
    ensures AllIntact(m, stack0) && FsClear(r'.fsBase, stack) && FsApart(r'.fsBase, LowOf(Esp(r)), Esp(r)) ==>
              AllIntact(m', stack)
  {
    hide Dword, Stored, Fields, GetGpr, LowOf, ContextOf, ExcRecordOf;
    if AllIntact(m, stack0) && FsClear(r'.fsBase, stack) && FsApart(r'.fsBase, LowOf(Esp(r)), Esp(r)) {
      forall i | 0 <= i < |stack| ensures ContextIs(m', stack[i].contextPtr, stack[i].faultRegs, stack[i].faultingPc) {
        if i < |kept| {
          assert stack[i] == kept[i] == stack0[i];
          assert Esp(r) < stack[i].stagedTop;
          StoredFits(m, stack[i].contextPtr, CONTEXT_SIZE, Fields(stack[i].faultRegs, stack[i].faultingPc), 17);
          StoredFrame(m, m', stack[i].contextPtr, CONTEXT_SIZE, Fields(stack[i].faultRegs, stack[i].faultingPc), 17);
        }
      }
    }
  }

  // The head of the chain is put back, unless none was saved.
  ghost predicate HeadRestored(m: Bytemap, m': Bytemap, fsBase: u64, savedHead: u32) {
    && OnlyIn(m, m', fsBase, fsBase + 4)
    && (savedHead == 0 ==> m' == m)
    && (savedHead != 0 && Has(m, fsBase, 4) ==> Dword(m', fsBase) == savedHead)
  }

  lemma TopContext(stack: seq<Frame>, record: u64)
    requires Nested(stack) && stack != []
    ensures stack[|stack| - 1].contextPtr + CONTEXT_SIZE <= 0x1_0000_0000
    ensures Nested(stack[..|stack| - 1])
    ensures Nested(stack[|stack| - 1 := stack[|stack| - 1].(record := record)])
  {
  }

  lemma HeadKeepsContext(m: Bytemap, m': Bytemap, fsBase: u64, savedHead: u32, context: u64, r: Registers, pc: u64)
    requires HeadRestored(m, m', fsBase, savedHead) && ContextIs(m, context, r, pc)
    requires FsApart(fsBase, context, context + CONTEXT_SIZE)
    ensures ContextIs(m', context, r, pc)
  {
    hide Dword, Fields;
    StoredFrame(m, m', context, CONTEXT_SIZE, Fields(r, pc), 17);
  }

  // Everything a dispatch stages, from the bytes before.
  ghost predicate Staged(m: Bytemap, m': Bytemap, r: Registers, context: u64, exc: u64, pc: u64, faultAddress: u64,
                         code: u32, trap: u32)
  {
    && exc >= 8 && exc + 0x50 <= 0x1_0000_0000
    && ContextIs(m', context, r, pc)
    && Stored(m', exc, 0x50, ExcFields(code, pc, faultAddress), 7)
    && Dword(m', exc - 8) == Dword(m, r.fsBase) && Dword(m', exc - 4) == trap
    && (Has(m, r.fsBase, 4) ==> Dword(m', r.fsBase) == exc - 8)
  }

  lemma StagedBy(m: Bytemap, m1: Bytemap, m2: Bytemap, m': Bytemap, r: Registers, context: u64, exc: u64, pc: u64,
                 faultAddress: u64, code: u32, trap: u32)
    requires 8 <= exc && exc + 0x50 <= context && context + CONTEXT_SIZE <= 0x1_0000_0000
    requires OnlyIn(m, m1, context, context + CONTEXT_SIZE) && ContextIs(m1, context, r, pc)
    requires OnlyIn(m1, m2, exc, exc + 0x50) && Stored(m2, exc, 0x50, ExcFields(code, pc, faultAddress), 7)
    requires OnlyInOr(m2, m', exc - 8, exc, r.fsBase)
    requires FsApart(r.fsBase, exc - 8, exc) ==>
               && Dword(m', exc - 8) == Dword(m2, r.fsBase) && Dword(m', exc - 4) == trap
               && (Has(m2, r.fsBase, 4) ==> Dword(m', r.fsBase) == exc - 8)
    ensures OnlyInOr(m, m', exc - 8, context + CONTEXT_SIZE, r.fsBase)
    ensures FsApart(r.fsBase, exc - 8, context + CONTEXT_SIZE) ==>
              Staged(m, m', r, context, exc, pc, faultAddress, code, trap) && Dword(m2, r.fsBase) == Dword(m, r.fsBase)
  {
    hide Dword, Fields, ExcFields, Stored;
    KeepsHas(m, m2);
    assert forall x :: x in m <==> x in m';
    if FsApart(r.fsBase, exc - 8, context + CONTEXT_SIZE) {
      DwordFrame(m, m2, r.fsBase);
      StoredFrame(m1, m2, context, CONTEXT_SIZE, Fields(r, pc), 17);
      StoredFrame(m2, m', context, CONTEXT_SIZE, Fields(r, pc), 17);
      StoredFrame(m2, m', exc, 0x50, ExcFields(code, pc, faultAddress), 7);
    }
  }

  lemma StagedSeen(m: Bytemap, m': Bytemap, r: Registers, context: u64, exc: u64, pc: u64, faultAddress: u64, code: u32,
                   trap: u32)
    ensures Staged(m, m', r, context, exc, pc, faultAddress, code, trap) ==>
              ContextAt(m', context, r, pc) && ExceptionRecordAt(m', exc, code, pc, faultAddress)
  {
    hide Dword, Stored, ContextAt, ExceptionRecordAt;
    if Staged(m, m', r, context, exc, pc, faultAddress, code, trap) {
      SeenContext(m', context, r, pc);
      SeenException(m', exc, code, pc, faultAddress);
    }
  }

  lemma NoRoom(m: Bytemap, esp: u64)
    requires LowOf(esp) >= esp
    ensures !Room(m, esp)
  {
  }

  lemma RoomIs(m: Bytemap, esp: u64)
    requires LowOf(esp) < esp
    ensures Room(m, esp) <==> Committed(m, LowOf(esp), esp - LowOf(esp))
  {
  }

  lemma HasParts(m: Bytemap, low: u64, esp: u32, context: u64, exc: u64)
    requires low < esp && Committed(m, low, esp - low)
    requires low + 0x40 == exc && exc + 0x50 <= context && context + CONTEXT_SIZE <= esp
    ensures Has(m, context, CONTEXT_SIZE) && Has(m, exc, 0x50) && Has(m, exc - 8, 8)
  {
  }

  lemma OnlyInKeeps(m: Bytemap, m': Bytemap, a: int, b: int)
    requires OnlyIn(m, m', a, b)
    ensures forall x: u64, n: nat :: Has(m', x, n) == Has(m, x, n)
  {
    KeepsHas(m, m');
  }

  // Pushing one more dword, within the address space or around it.
  lemma WrapStep(esp: int, i: int)
    requires 0 <= esp < 0x1_0000_0000 && 0 <= i < 5
    ensures Wrap(Wrap(esp - 4 * i) as int - 4) == Wrap(esp - 4 * (i + 1))
    ensures esp >= 20 ==> Wrap(esp - 4 * (i + 1)) as int == esp - 4 * (i + 1)
  {
    hide Wrap;
    WrapIs(esp - 4 * i);
    WrapIs(esp - 4 * (i + 1));
    WrapAround(esp - 4 * i);
  }

  lemma WrapAround(x: int)
    requires -0x1000 <= x < 0x1_0000_0000
    ensures Wrap(Wrap(x) as int - 4) == Wrap(x - 4)
  {
  }

  lemma OnlyInSame(m: Bytemap, a: int, b: int)
    ensures OnlyIn(m, m, a, b)
  {
  }

  lemma OnlyInStep(m: Bytemap, m1: Bytemap, m': Bytemap, a: int, b: int, at: int)
    requires OnlyIn(m, m1, a, b) && a <= at && at + 4 <= b && OnlyIn(m1, m', at, at + 4)
    ensures OnlyIn(m, m', a, b)
  {
    assert forall x :: x in m <==> x in m1;
  }

  lemma HasPart(m: Bytemap, base: u64, size: nat, offset: nat)
    requires Has(m, base, size) && offset + 4 <= size
    ensures Has(m, base + offset, 4)
  {
  }

  lemma StoredStep(m: Bytemap, m': Bytemap, base: u64, size: nat, fields: seq<Field>, k: nat)
    requires Stored(m, base, size, fields, k) && k < |fields| && fields[k].offset + 4 <= size
    requires FieldsApart(fields)
    requires OnlyIn(m, m', base + fields[k].offset, base + fields[k].offset + 4)
    requires Dword(m', base + fields[k].offset) == fields[k].value
    ensures Stored(m', base, size, fields, k + 1)
  {
    hide Dword;
    forall i | 0 <= i < k ensures Dword(m', base + fields[i].offset) == fields[i].value {
      DwordFrame(m, m', base + fields[i].offset);
    }
  }

  // Every byte of the structure that belongs to no field is 0.
  ghost predicate BlankElse(m: Bytemap, base: u64, size: nat, fields: seq<Field>) {
    forall x :: base <= x < base + size && x in m &&
                (forall k :: 0 <= k < |fields| ==> !(base + fields[k].offset <= x < base + fields[k].offset + 4)) ==>
      m[x] == 0
  }

  lemma BlankStep(m: Bytemap, m': Bytemap, base: u64, size: nat, fields: seq<Field>, k: nat)
    requires k < |fields| && OnlyIn(m, m', base + fields[k].offset, base + fields[k].offset + 4)
    ensures BlankElse(m, base, size, fields) ==> BlankElse(m', base, size, fields)
  {
    assert forall x :: x in m <==> x in m';
  }

  lemma StoredFits(m: Bytemap, base: u64, size: nat, fields: seq<Field>, n: nat)
    requires Stored(m, base, size, fields, n)
    ensures base + size <= 0x1_0000_0000
  {
  }

  lemma NothingStored(m: Bytemap, base: u64, size: nat, fields: seq<Field>)
    requires base + size <= 0x1_0000_0000
    ensures Stored(m, base, size, fields, 0)
  {
  }

  lemma DwordStored(m: Bytemap, a: u64, v: u32)
    requires Has(m, a, 4)
    ensures Dword(StoreIf(m, a, 4, v), a) == v
  {
    Pow256Values();
    LoadStored(m, a, 4, v);
  }

  lemma KeepsHas(m: Bytemap, m': Bytemap)
    requires m'.Keys == m.Keys
    ensures forall a: u64, n: nat :: Has(m', a, n) == Has(m, a, n)
  {
    assert forall x :: x in m <==> x in m';
  }

  lemma StartsStored(m: Bytemap, m': Bytemap, context: u64, fields: seq<Field>)
    requires Has(m, context, CONTEXT_SIZE) && context + CONTEXT_SIZE <= 0x1_0000_0000
    requires m' == Patch(m, context, seq(CONTEXT_SIZE, _ => 0))
    ensures Stored(m', context, CONTEXT_SIZE, fields, 0) && Has(m', context, CONTEXT_SIZE)
            && OnlyIn(m, m', context, context + CONTEXT_SIZE)
    ensures BlankElse(m', context, CONTEXT_SIZE, fields)
  {
  }
}
