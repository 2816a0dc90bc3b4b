// The AArch64 core as it runs: registers, memory and op cache changed in place. Each method is tied to the
// specification it must meet; Arm64Cache then says when running and stepping agree.

module Arm64Machine {
  import opened MachineTypes
  import opened FlatMemory
  import opened GuestMemory
  import opened Arm64Spec
  import opened Arm64Cache

  // Decoded instructions by address.
  class OpCache<TOp> {
    var entries: map<u64, TOp>

    constructor ()
      ensures entries == map[]
    {
      entries := map[];
    }

    function Find(a: u64): Option<TOp>
      reads this
    {
      if a in entries then Some(entries[a]) else None
    }

    // The op is what will be found at a, and nothing else is found differently.
    method Insert(a: u64, op: TOp)
      modifies this
      ensures entries == old(entries)[a := op]
      ensures Find(a) == Some(op) && forall b: u64 :: b != a ==> Find(b) == old(Find(b))
    {
      entries := entries[a := op];
    }

    // Nothing is found in the range, and nothing outside it is found differently.
    method Invalidate(from: u64, to: u64)
      modifies this
      ensures forall a :: a in entries <==> a in old(entries) && !(from <= a < to)
      ensures forall a :: a in entries ==> entries[a] == old(entries)[a]
      ensures forall a: u64 :: Find(a) == if from <= a < to then None else old(Find(a))
    {
      var keys := entries.Keys;
      while keys != {}
        invariant forall a :: a in keys ==> a in entries
        invariant forall a :: a in entries <==> a in old(entries) && (a in keys || !(from <= a < to))
        invariant forall a :: a in entries ==> entries[a] == old(entries)[a]
        decreases keys
      {
        var key :| key in keys;
        keys := keys - {key};
        if key >= from && key < to {
          entries := entries - {key};
        }
      }
    }
  }

  class Arm64 {
    const decode: Decoder
    const cache: OpCache<Op>
    const guest: Guest
    var regs: Registers
    var execFault: bool

    constructor (decode: Decoder, regs: Registers, guest: Guest)
      ensures this.decode == decode && this.regs == regs && this.guest == guest
      ensures fresh(cache) && cache.entries == map[]
    {
      this.decode, this.regs, this.guest, execFault := decode, regs, guest, false;
      cache := new OpCache();
    }

    ghost function State(): Cpu
      reads this, guest
    {
      Cpu(regs, guest.bytes)
    }

    method NoteWrite(a: u64, size: nat)
      modifies cache
      ensures cache.entries == Without(old(cache.entries), a, Wrap(a + size))
      ensures var end := (a + size) % 0x1_0000_0000_0000_0000;
              && (forall pc :: pc in cache.entries <==> pc in old(cache.entries) && !(a <= pc < end))
              && (forall pc :: pc in cache.entries ==> cache.entries[pc] == old(cache.entries[pc]))
    {
      if |cache.entries| > 0 {
        cache.Invalidate(a, Wrap(a + size));
      }
    }

    method ExecAccess(op: Op) returns (ok: bool)
      requires op.LoadStore? || op.LoadStorePair?
      modifies this, cache, guest
      ensures (State(), ok) == Access(op, old(State()))
      ensures cache.entries == Dropped(old(cache.entries), op, old(regs))
    {
      hide Has, LoadOr0, StoreIf, ReadReg, WriteReg, Without;
      if op.LoadStore? {
        var LoadStore(load, rd, rn, imm, size, wide) := op;
        var a := Wrap(ReadReg(regs, rn, true) + imm);
        if load {
          var v;
          v, ok := guest.ReadSized(a, size);
          regs := WriteReg(regs, rd, v, false, wide);
        } else {
          var v := ReadReg(regs, rd, false);
          NoteWrite(a, size);
          ok := guest.WriteSized(a, size, v);
        }
      } else {
        var LoadStorePair(load, rd, rt2, rn, imm, mode, wide) := op;
        var base := ReadReg(regs, rn, true);
        var a := if mode.PostIndex? then base else Wrap(base + imm);
        var n: Width := if wide then 8 else 4;
        var ok1, ok2;
        if load {
          var v1, v2;
          v1, ok1 := guest.ReadSized(a, n);
          v2, ok2 := guest.ReadSized(Wrap(a + n), n);
          regs := WriteReg(regs, rd, v1, false, wide);
          regs := WriteReg(regs, rt2, v2, false, wide);
        } else {
          var v1, v2 := ReadReg(regs, rd, false), ReadReg(regs, rt2, false);
          NoteWrite(a, 2 * n);
          ok1 := guest.WriteSized(a, n, v1);
          StoreKeepsHas(old(guest.bytes), a, n, v1, Wrap(a + n), n);
          ok2 := guest.WriteSized(Wrap(a + n), n, v2);
        }
        ok := ok1 && ok2;
        if !mode.Offset? {
          regs := WriteReg(regs, rn, Wrap(base + imm), true, true);
        }
      }
    }

    // Executes one decoded op, passed by value: a store may drop the op's own cache entry.
    method Exec(op: Op, pc: u64) returns (info: StepInfo)
      modifies this, cache, guest
      ensures State() == Execute(op, pc, old(State())).cpu
      ensures info == InfoOf(pc, Execute(op, pc, old(State())).result)
      ensures cache.entries == Dropped(old(cache.entries), op, old(regs))
    {
      hide Access, Dropped, ReadReg, EvalCond;
      DroppedOnlyByStores(cache.entries, op, regs);
      execFault := false;
      var next, branch := Wrap(pc + 4), false;
      match op {
        case Compute(effect) =>
          regs := effect(regs);
        case LoadStore(_, _, _, _, _, _) =>
          var ok := ExecAccess(op);
          execFault := !ok;
        case LoadStorePair(_, _, _, _, _, _, _) =>
          var ok := ExecAccess(op);
          execFault := !ok;
        case Branch(target) =>
          regs, branch := regs.(pc := target), true;
        case BranchLink(target) =>
          regs := regs.(gpr := regs.gpr[LINK := next]);
          regs, branch := regs.(pc := target), true;
        case BranchIf(cond, target) =>
          regs, branch := regs.(pc := if EvalCond(regs, cond) then target else next), true;
        case BranchZero(nonzero, rd, target) =>
          var v := ReadReg(regs, rd, false);
          var taken := if nonzero then v != 0 else v == 0;
          regs, branch := regs.(pc := if taken then target else next), true;
        case BranchRegister(rn) =>
          regs, branch := regs.(pc := ReadReg(regs, rn, false)), true;
        case BranchLinkRegister(rn) =>
          regs := regs.(pc := ReadReg(regs, rn, false));
          regs, branch := regs.(gpr := regs.gpr[LINK := next]), true;
        case Return(rn) =>
          regs, branch := regs.(pc := regs.gpr[if rn == 0 then LINK else rn]), true;
        case Halt =>
          regs := regs.(pc := next);
          return StepInfo(StepHalt, pc, 4, NoComment);
        case Unimplemented =>
          return StepInfo(StepUnimplemented, pc, 4, NotImplemented);
      }
      if execFault {
        return StepInfo(StepFault, pc, 4, AccessViolation);
      }
      if !branch {
        regs := regs.(pc := next);
      }
      info := StepInfo(StepOk, pc, 4, NoComment);
    }

    method Step() returns (info: StepInfo)
      modifies this, cache, guest
      ensures Stepped(State(), info) == StepOnce(decode, old(State()))
    {
      var pc := regs.pc;
      var word, ok := guest.ReadSized(pc, 4);
      if !ok {
        return StepInfo(StepFault, pc, 0, CannotFetch);
      }
      WordBound(guest.bytes, pc);
      info := Exec(decode(pc, word), pc);
    }

    // Runs up to maxInsns instructions out of the op cache.
    method Run(maxInsns: nat) returns (count: nat, info: StepInfo)
      requires maxInsns > 0
      modifies this, cache, guest
      ensures CachedRan(State(), cache.entries, count, info) ==
                CachedSteps(decode, old(State()), old(cache.entries), maxInsns)
      ensures Coherent(decode, old(cache.entries), old(guest.bytes)) &&
              Clean(decode, old(State()), old(cache.entries), maxInsns) ==>
                && Ran(State(), count, info) == Steps(decode, old(State()), maxInsns)
                && Coherent(decode, cache.entries, guest.bytes)
    {
      hide Execute, Clean, Coherent, Has, Dropped;
      count, info := 0, StepInfo(StepOk, 0, 0, NoComment);
      ghost var whole := CachedSteps(decode, State(), cache.entries, maxInsns);
      while count < maxInsns
        invariant count <= maxInsns
        invariant count < maxInsns ==> var rest := CachedSteps(decode, State(), cache.entries, maxInsns - count);
                                       whole == rest.(count := rest.count + count)
        invariant count == maxInsns ==> whole == CachedRan(State(), cache.entries, count, info)
      {
        var pc := regs.pc;
        ghost var one := CachedStep(decode, State(), cache.entries);
        var found := cache.Find(pc);
        var op;
        if found.None? {
          var word, ok := guest.ReadSized(pc, 4);
          if !ok {
            info := StepInfo(StepFault, pc, 0, CannotFetch);
            count := count + 1;
            break;
          }
          WordBound(guest.bytes, pc);
          op := decode(pc, word);
          cache.Insert(pc, op);
        } else {
          op := found.value;
        }
        info := Exec(op, pc);
        count := count + 1;
        assert one == CachedRan(State(), cache.entries, 1, info);
        if !info.result.StepOk? {
          break;
        }
      }
      assert whole == CachedRan(State(), cache.entries, count, info);
      if Coherent(decode, old(cache.entries), old(guest.bytes)) &&
         Clean(decode, old(State()), old(cache.entries), maxInsns) {
        CachedRunIsSteps(decode, old(State()), old(cache.entries), maxInsns);
      }
    }
  }

  lemma DroppedOnlyByStores(cache: Cache, op: Op, r: Registers)
    ensures !op.LoadStore? && !op.LoadStorePair? ==> Dropped(cache, op, r) == cache
  {
  }

  lemma StoreKeepsHas(m: Bytemap, a: u64, n: nat, v: u64, b: u64, k: nat)
    ensures Has(StoreIf(m, a, n, v), b, k) <==> Has(m, b, k)
  {
    assert forall x :: x in StoreIf(m, a, n, v) <==> x in m;
  }
}
