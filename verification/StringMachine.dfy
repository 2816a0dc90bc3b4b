// The string instructions as the interpreter performs them, on registers, flags and memory changed in place.

module StringMachine {
  import opened MachineTypes
  import opened FlatMemory
  import opened GuestMemory
  import opened Alu
  import opened X86Registers
  import opened StringSpec

  class X86String {
    const alu: X86Alu
    const guest: Guest
    var gpr: Gprs
    var direction: bool
    var rip: u64
    var execFault: bool

    constructor (alu: X86Alu, guest: Guest, gpr: Gprs, direction: bool, rip: u64)
      ensures this.alu == alu && this.guest == guest
      ensures this.gpr == gpr && this.direction == direction && this.rip == rip
    {
      this.alu, this.guest, this.gpr, this.direction, this.rip, execFault := alu, guest, gpr, direction, rip, false;
    }

    ghost function State(): Cpu
      reads this, alu, guest
    {
      Cpu(gpr, alu.flags, direction, rip, guest.bytes)
    }

    method MemRead(a: u64, size: Width) returns (v: u64)
      modifies `execFault
      ensures v == LoadOr0(guest.bytes, a, size)
      ensures execFault <==> old(execFault) || !Has(guest.bytes, a, size)
    {
      var ok;
      v, ok := guest.ReadSized(a, size);
      if !ok {
        execFault := true;
      }
    }

    method MemWrite(a: u64, v: u64, size: Width)
      modifies `execFault, guest
      ensures guest.bytes == StoreIf(old(guest.bytes), a, size, v)
      ensures execFault <==> old(execFault) || !Has(old(guest.bytes), a, size)
    {
      var ok := guest.WriteSized(a, size, v);
      if !ok {
        execFault := true;
      }
    }

    method Advance(i: nat, c: Context, size: Width)
      requires i < 16
      modifies `gpr
      ensures State() == Moved(old(State()), i, c, size)
    {
      var delta := if direction then -(size as int) else size;
      gpr := SetGpr(gpr, i, c.addressSize, Wrap(GetGpr(gpr, i, c.addressSize) + delta));
    }

    // One pass through the loop body.
    method Pass(op: StringOp, c: Context)
      requires !execFault
      modifies this, alu, guest
      ensures State() == Iterate(op, c, old(State())).cpu && execFault == Iterate(op, c, old(State())).fault
    {
      hide LoadOr0, StoreIf, Has, GetGpr, SetGpr, Subtracted, Linear, Moved, Range;
      RangeIs(op.size);
      var src := Linear(c, c.srcBase, GetGpr(gpr, RSI, c.addressSize));
      var dst := Linear(c, c.dstBase, GetGpr(gpr, RDI, c.addressSize));
      match op.kind {
        case Movs =>
          var v := MemRead(src, op.size);
          MemWrite(dst, v, op.size);
          Advance(RSI, c, op.size);
          Advance(RDI, c, op.size);
        case Stos =>
          MemWrite(dst, GetGpr(gpr, RAX, op.size), op.size);
          Advance(RDI, c, op.size);
        case Lods =>
          var v := MemRead(src, op.size);
          gpr := SetGpr(gpr, RAX, op.size, v);
          Advance(RSI, c, op.size);
        case Scas =>
          var acc := GetGpr(gpr, RAX, op.size);
          var v := MemRead(dst, op.size);
          alu.SetFlagsSub(acc, v, Wrap(acc as int - v), op.size);
          Advance(RDI, c, op.size);
        case Cmps =>
          var v1 := MemRead(src, op.size);
          var v2 := MemRead(dst, op.size);
          alu.SetFlagsSub(v1, v2, Wrap(v1 as int - v2), op.size);
          Advance(RSI, c, op.size);
          Advance(RDI, c, op.size);
        case Ins =>
          MemWrite(dst, Range(op.size) - 1, op.size);
          Advance(RDI, c, op.size);
        case Outs =>
          var _ := MemRead(src, op.size);
          Advance(RSI, c, op.size);
      }
    }

    // One step of a string instruction: at most 65536 iterations of a repeated one.
    method Exec(op: StringOp, c: Context) returns (ending: Ending)
      modifies this, alu, guest
      ensures Looped(State(), ending) == Step(op, c, old(State()))
    {
      hide Iterate, GetGpr, SetGpr, Stops;
      execFault := false;
      var branch := false;
      var repeated := !op.rep.Once?;
      var count: u64 := if repeated then GetGpr(gpr, RCX, c.addressSize) else 1;
      var iterations := 0;
      ghost var whole := OneStep(op, c, State(), count, 0);
      ending := Finished;
      while count > 0
        invariant !execFault && !branch && ending == Finished && (iterations < MAX_ITERATIONS || count == 0)
        invariant whole == if count == 0 then Looped(State(), Finished) else OneStep(op, c, State(), count, iterations)
        decreases count
      {
        Pass(op, c);
        if execFault {
          break;
        }
        if !repeated {
          break;
        }
        count := count - 1;
        gpr := SetGpr(gpr, RCX, c.addressSize, count);
        if Stops(op, alu.flags) {
          break;
        }
        iterations := iterations + 1;
        if count > 0 && iterations >= MAX_ITERATIONS {
          rip, branch := op.address, true;
          break;
        }
      }
      if execFault {
        return Faulted;
      }
      if branch {
        return Capped;
      }
      rip := Wrap(op.address + op.length);
    }
  }

  lemma RangeIs(w: Width)
    ensures 0 < Range(w) <= WORD
  {
  }
}
