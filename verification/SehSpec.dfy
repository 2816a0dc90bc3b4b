// Structured exception handling as 32-bit Windows does it: what a dispatch stages on the guest stack, how it finds a
// handler, and what a CONTEXT holds.

module SehSpec {
  import opened MachineTypes
  import opened FlatMemory
  import opened GuestMemory
  import opened X86Registers

  const MAX_DEPTH: nat := 16
  const MAX_SKIPS: nat := 32
  const CONTEXT_SIZE: nat := 0x2CC
  const END_OF_CHAIN: u64 := 0xFFFF_FFFF
  const ACCESS_VIOLATION: u32 := 0xC000_0005

  datatype Segments = Segments(cs: u16, ds: u16, es: u16, fs: u16, gs: u16, ss: u16)

  // others stands for the rest of the register file (vector, control and thread registers).
  datatype Registers = Registers(gpr: Gprs, rip: u64, rflags: u64, segments: Segments, fsBase: u64, others: seq<u64>)

  datatype Frame = Frame(record: u64, contextPtr: u64, excRecordPtr: u64, faultingPc: u64, savedHead: u32,
                         stagedTop: u64,
                         trap: bool, faultRegs: Registers)

  function Low32(x: u64): u32 { x % 0x1_0000_0000 }

  function Gpr32(r: Registers, i: nat): u32
    requires i < 16
  {
    GetGpr(r.gpr, i, 4)
  }

  function Esp(r: Registers): u32 { Gpr32(r, RSP) }

  ghost function Dword(m: Bytemap, a: u64): (v: u32) {
    DwordBound(m, a);
    LoadOr0(m, a, 4)
  }

  lemma DwordBound(m: Bytemap, a: u64)
    ensures LoadOr0(m, a, 4) < 0x1_0000_0000
  {
    if Has(m, a, 4) {
      ToFromBytes(Fetch(m, a, 4));
      Pow256Values();
    }
  }

  // ---- where things go ----

  function Aligned(x: u64): u64 { x - x % 16 }
  function ContextOf(esp: u64): u64 { Aligned(Wrap(esp as int - CONTEXT_SIZE)) }
  function ExcRecordOf(esp: u64): u64 { Aligned(Wrap(ContextOf(esp) as int - 0x50)) }
  function LowOf(esp: u64): u64 { Wrap(ExcRecordOf(esp) as int - 0x40) }

  // There is room below the stack pointer for all that a dispatch stages.
  ghost predicate Room(m: Bytemap, esp: u64) { LowOf(esp) < esp && Committed(m, LowOf(esp), esp - LowOf(esp)) }

  lemma AlignedIs(x: u64)
    ensures Aligned(x) <= x < Aligned(x) + 16 && Aligned(x) % 16 == 0
  {
  }

  lemma WrapIs(x: int)
    requires -0x1_0000_0000 <= x < 0x1_0000_0000_0000_0000
    ensures Wrap(x) == if x < 0 then x + 0x1_0000_0000_0000_0000 else x
  {
  }

  lemma StagingOrder(esp: u64)
    requires LowOf(esp) < esp
    ensures LowOf(esp) + 0x40 == ExcRecordOf(esp) && ExcRecordOf(esp) + 0x50 <= ContextOf(esp)
    ensures ContextOf(esp) + CONTEXT_SIZE <= esp && ContextOf(esp) % 16 == 0 && ExcRecordOf(esp) % 16 == 0
  {
    hide Aligned, Wrap;
    WrapIs(esp as int - CONTEXT_SIZE);
    AlignedIs(Wrap(esp as int - CONTEXT_SIZE));
    WrapIs(ContextOf(esp) as int - 0x50);
    AlignedIs(Wrap(ContextOf(esp) as int - 0x50));
    WrapIs(ExcRecordOf(esp) as int - 0x40);
  }

  // ---- finding a handler ----

  // Passes over the nested records of dispatches in flight, each with the establisher below it.
  ghost function Search(m: Bytemap, head: u64, trap: u64, skip: nat): Option<u64>
    requires skip <= MAX_SKIPS
    decreases MAX_SKIPS - skip
  {
    if Committed(m, head, 8) && head + 4 <= U64_MAX as int && Dword(m, head + 4) == trap && skip < MAX_SKIPS then
      var establisher := Dword(m, head);
      if Committed(m, establisher, 8) then Search(m, Dword(m, establisher), trap, skip + 1) else None
    else Some(head)
  }

  ghost predicate IsNested(m: Bytemap, head: u64, trap: u64) {
    Committed(m, head, 8) && head + 4 <= U64_MAX as int && Dword(m, head + 4) == trap
  }

  // The record reached after n nested records.
  ghost function After(m: Bytemap, head: u64, n: nat): u64
    decreases n
  {
    if n == 0 then head else After(m, Dword(m, Dword(m, head)), n - 1)
  }

  // The search skips only nested records whose establisher can be read, and stops at the first that is not nested
  // unless it has skipped 32; it fails exactly at a nested record, reached before that, whose establisher cannot be
  // read.
  lemma {:induction false} SearchSkips(m: Bytemap, head: u64, trap: u64, skip: nat) returns (n: nat)
    requires skip <= MAX_SKIPS
    ensures skip + n <= 32
    ensures forall k :: 0 <= k < n ==>
              IsNested(m, After(m, head, k), trap) && Committed(m, Dword(m, After(m, head, k)), 8)
    ensures match Search(m, head, trap, skip)
            case Some(found) => found == After(m, head, n) && (skip + n < 32 ==> !IsNested(m, found, trap))
            case None =>
              && skip + n < 32 && IsNested(m, After(m, head, n), trap)
              && !Committed(m, Dword(m, After(m, head, n)), 8)
    decreases MAX_SKIPS - skip
  {
    hide Dword, Committed;
    n := 0;
    if IsNested(m, head, trap) && skip < MAX_SKIPS && Committed(m, Dword(m, head), 8) {
      var next := Dword(m, Dword(m, head));
      var k := SearchSkips(m, next, trap, skip + 1);
      n := k + 1;
      forall j | 0 < j < n ensures After(m, head, j) == After(m, next, j - 1) {
      }
    }
  }

  ghost predicate HasHandler(m: Bytemap, head: Option<u64>) {
    head.Some? && head.value != 0 && head.value != END_OF_CHAIN && Committed(m, head.value, 8)
  }

  // ---- the stack of dispatches ----

  // Drops the dispatches that the guest stack has unwound past.
  function Reclaimed(stack: seq<Frame>, esp: u64): (kept: seq<Frame>)
    ensures |kept| <= |stack| && kept == stack[..|kept|]
    ensures kept != [] ==> esp < kept[|kept| - 1].stagedTop
    ensures forall i :: |kept| <= i < |stack| ==> stack[i].stagedTop <= esp
  {
    if stack != [] && esp >= stack[|stack| - 1].stagedTop then Reclaimed(stack[..|stack| - 1], esp) else stack
  }

  // At most 16 dispatches; going deeper, staged CONTEXTs lie strictly lower on the stack and never overlap.
  ghost predicate Nested(stack: seq<Frame>) {
    && |stack| <= MAX_DEPTH
    && (forall i :: 0 <= i < |stack| ==>
          stack[i].stagedTop == stack[i].contextPtr && stack[i].contextPtr + CONTEXT_SIZE <= 0x1_0000_0000)
    && (forall i, j :: 0 <= i < j < |stack| ==> stack[j].stagedTop + CONTEXT_SIZE <= stack[i].stagedTop)
  }

  // ---- CONTEXT ----

  datatype Field = Field(offset: nat, value: u32)

  // What is stored in a CONTEXT, lowest offset first.
  function Fields(r: Registers, eip: u64): seq<Field> {
    [Field(0x00, 0x0001_0007), Field(0x8C, r.segments.gs), Field(0x90, r.segments.fs), Field(0x94, r.segments.es),
     Field(0x98, r.segments.ds), Field(0x9C, Gpr32(r, RDI)), Field(0xA0, Gpr32(r, RSI)),
     Field(0xA4, Gpr32(r, RBX)), Field(0xA8, Gpr32(r, RDX)), Field(0xAC, Gpr32(r, RCX)),
     Field(0xB0, Gpr32(r, RAX)), Field(0xB4, Gpr32(r, RBP)), Field(0xB8, Low32(eip)),
     Field(0xBC, r.segments.cs), Field(0xC0, Low32(r.rflags)), Field(0xC4, Gpr32(r, RSP)), Field(0xC8, r.segments.ss)]
  }

  // What is stored in an EXCEPTION_RECORD.
  function ExcFields(code: u32, pc: u64, faultAddress: u64): seq<Field> {
    [Field(0x00, code), Field(0x04, 0), Field(0x08, 0), Field(0x0C, Low32(pc)),
     Field(0x10, if code == ACCESS_VIOLATION then 2 else 0), Field(0x14, 0), Field(0x18, Low32(faultAddress))]
  }

  // A handler's arguments and return address, in the order they are pushed.
  function CallFields(context: u64, record: u64, exc: u64, trap: u32): (fields: seq<Field>)
    ensures |fields| == 5
  {
    [Field(16, 0), Field(12, Low32(context)), Field(8, Low32(record)), Field(4, Low32(exc)), Field(0, trap)]
  }

  function CallArguments(context: u64, record: u64, exc: u64, trap: u32): (args: seq<u32>)
    ensures |args| == 5
  {
    [0, Low32(context), Low32(record), Low32(exc), trap]
  }

  // Memory after the values have been pushed, each on its own: a push that finds no memory is lost.
  ghost function Pushed(m: Bytemap, esp: u64, values: seq<u32>): Bytemap
    decreases values
  {
    if values == [] then m
    else Pushed(StoreIf(m, Wrap(esp as int - 4), 4, values[0]), Wrap(esp as int - 4), values[1..])
  }

  lemma PushedStep(m: Bytemap, esp: u64, values: seq<u32>)
    requires values != []
    ensures Pushed(m, esp, values) ==
              Pushed(StoreIf(m, Wrap(esp as int - 4), 4, values[0]), Wrap(esp as int - 4), values[1..])
  {
  }

  lemma {:induction false} NothingPushed(m: Bytemap, esp: u64)
    ensures Pushed(m, esp, []) == m
  {
  }

  lemma CallFieldIs(context: u64, record: u64, exc: u64, trap: u32, i: nat)
    requires i < 5
    ensures var args, f := CallArguments(context, record, exc, trap), CallFields(context, record, exc, trap);
            f[i] == Field(16 - 4 * i, args[i])
  {
  }

  ghost predicate FieldsApart(fields: seq<Field>) {
    forall i, j :: 0 <= i < j < |fields| ==>
      fields[i].offset + 4 <= fields[j].offset || fields[j].offset + 4 <= fields[i].offset
  }

  lemma FieldsAreApart(r: Registers, eip: u64)
    ensures FieldsApart(Fields(r, eip))
  {
    hide Gpr32, Low32;
  }

  lemma ExcFieldsAreApart(code: u32, pc: u64, faultAddress: u64)
    ensures FieldsApart(ExcFields(code, pc, faultAddress))
  {
  }

  lemma CallFieldsAreApart(context: u64, record: u64, exc: u64, trap: u32)
    ensures FieldsApart(CallFields(context, record, exc, trap))
  {
  }

  // The first n fields are stored in the structure of the given size.
  ghost predicate Stored(m: Bytemap, base: u64, size: nat, fields: seq<Field>, n: nat) {
    && n <= |fields| && base + size <= 0x1_0000_0000
    && forall k :: 0 <= k < n ==> fields[k].offset + 4 <= size && Dword(m, base + fields[k].offset) == fields[k].value
  }

  ghost predicate ContextIs(m: Bytemap, context: u64, r: Registers, eip: u64) {
    Stored(m, context, CONTEXT_SIZE, Fields(r, eip), 17)
  }

  // The registers that a CONTEXT brings back.
  ghost function Loaded(r: Registers, m: Bytemap, context: u64): Registers
    requires context + CONTEXT_SIZE <= 0x1_0000_0000
  {
    var g0 := SetGpr(r.gpr, RDI, 4, Dword(m, context + 0x9C));
    var g1 := SetGpr(g0, RSI, 4, Dword(m, context + 0xA0));
    var g2 := SetGpr(g1, RBX, 4, Dword(m, context + 0xA4));
    var g3 := SetGpr(g2, RDX, 4, Dword(m, context + 0xA8));
    var g4 := SetGpr(g3, RCX, 4, Dword(m, context + 0xAC));
    var g5 := SetGpr(g4, RAX, 4, Dword(m, context + 0xB0));
    var g6 := SetGpr(g5, RBP, 4, Dword(m, context + 0xB4));
    var g7 := SetGpr(g6, RSP, 4, Dword(m, context + 0xC4));
    r.(gpr := g7, rflags := Dword(m, context + 0xC0), rip := Dword(m, context + 0xB8))
  }

  // now, with the eight general registers, flags and program counter of the fault back in 32 bits.
  predicate Resumes(now: Registers, before: Registers, fault: Registers, eip: u64) {
    && (forall i :: 0 <= i < 8 ==> now.gpr[i] == Low32(fault.gpr[i]))
    && (forall i :: 8 <= i < 16 ==> now.gpr[i] == before.gpr[i])
    && now.rflags == Low32(fault.rflags) && now.rip == Low32(eip)
    && now.segments == before.segments && now.fsBase == before.fsBase && now.others == before.others
  }

  lemma Low32Registers(g: Gprs)
    ensures forall i :: 0 <= i < 16 ==> GetGpr(g, i, 4) == Low32(g[i])
  {
  }

  lemma SetLow32(g: Gprs, i: nat, v: u32)
    requires i < 16
    ensures SetGpr(g, i, 4, v) == g[i := v]
  {
  }

  // The first eight registers of a CONTEXT, in register order.
  ghost function GprsOf(m: Bytemap, context: u64): (g: seq<u64>)
    requires context + CONTEXT_SIZE <= 0x1_0000_0000
    ensures |g| == 8
  {
    [Dword(m, context + 0xB0), Dword(m, context + 0xAC), Dword(m, context + 0xA8), Dword(m, context + 0xA4),
     Dword(m, context + 0xC4), Dword(m, context + 0xB4), Dword(m, context + 0xA0), Dword(m, context + 0x9C)]
  }

  lemma LoadedIs(r: Registers, m: Bytemap, context: u64)
    requires context + CONTEXT_SIZE <= 0x1_0000_0000
    ensures Loaded(r, m, context) == r.(gpr := GprsOf(m, context) + r.gpr[8..], rflags := Dword(m, context + 0xC0),
                                        rip := Dword(m, context + 0xB8))
  {
    hide Dword, SetGpr;
    var g0 := r.gpr[RDI := Dword(m, context + 0x9C)];
    SetLow32(r.gpr, RDI, Dword(m, context + 0x9C));
    var g1 := g0[RSI := Dword(m, context + 0xA0)];
    SetLow32(g0, RSI, Dword(m, context + 0xA0));
    var g2 := g1[RBX := Dword(m, context + 0xA4)];
    SetLow32(g1, RBX, Dword(m, context + 0xA4));
    var g3 := g2[RDX := Dword(m, context + 0xA8)];
    SetLow32(g2, RDX, Dword(m, context + 0xA8));
    var g4 := g3[RCX := Dword(m, context + 0xAC)];
    SetLow32(g3, RCX, Dword(m, context + 0xAC));
    var g5 := g4[RAX := Dword(m, context + 0xB0)];
    SetLow32(g4, RAX, Dword(m, context + 0xB0));
    var g6 := g5[RBP := Dword(m, context + 0xB4)];
    SetLow32(g5, RBP, Dword(m, context + 0xB4));
    SetLow32(g6, RSP, Dword(m, context + 0xC4));
    assert Loaded(r, m, context).gpr == GprsOf(m, context) + r.gpr[8..];
  }

  // Continuing with an untouched CONTEXT undoes everything the handler did to the registers.
  lemma ContextRoundTrip(m: Bytemap, context: u64, fault: Registers, eip: u64, before: Registers)
    requires ContextIs(m, context, fault, eip)
    ensures Resumes(Loaded(before, m, context), before, fault, eip)
  {
    hide Dword, SetGpr, GetGpr, Loaded;
    LoadedIs(before, m, context);
    Low32Registers(fault.gpr);
    var f := Fields(fault, eip);
    assert f[5].offset == 0x9C && f[6].offset == 0xA0 && f[7].offset == 0xA4;
    assert f[8].offset == 0xA8 && f[9].offset == 0xAC;
    assert f[10].offset == 0xB0 && f[11].offset == 0xB4 && f[12].offset == 0xB8 && f[14].offset == 0xC0
           && f[15].offset == 0xC4;
  }

  ghost predicate Unchanged(m: Bytemap, m': Bytemap, a: int, b: int) {
    m'.Keys == m.Keys && forall x :: a <= x < b && x in m ==> m'[x] == m[x]
  }

  lemma DwordFrame(m: Bytemap, m': Bytemap, a: u64)
    requires Unchanged(m, m', a, a + 4)
    ensures Dword(m', a) == Dword(m, a)
  {
    assert forall x :: x in m <==> x in m';
    if Has(m, a, 4) {
      FetchFrame(m, m', a, 4);
    }
  }

  // A structure stays what it is while its bytes do.
  lemma StoredFrame(m: Bytemap, m': Bytemap, base: u64, size: nat, fields: seq<Field>, n: nat)
    requires Stored(m, base, size, fields, n) && Unchanged(m, m', base, base + size)
    ensures Stored(m', base, size, fields, n)
  {
    hide Dword;
    forall k | 0 <= k < n ensures Dword(m', base + fields[k].offset) == fields[k].value {
      DwordFrame(m, m', base + fields[k].offset);
    }
  }

  // ---- what is in memory, address by address ----

  // The low half of a general register.
  function Reg32(r: Registers, i: nat): int
    requires i < 16
  {
    r.gpr[i] % 0x1_0000_0000
  }

  // The five dwords at a handler's stack pointer.
  ghost predicate CallFrameAt(m: Bytemap, sp: u64, trap: u32, exc: int, record: int, context: int) {
    && Dword(m, sp) == trap
    && sp + 16 < WORD && Dword(m, sp + 4) == exc && Dword(m, sp + 8) == record % 0x1_0000_0000
    && Dword(m, sp + 12) == context && Dword(m, sp + 16) == 0
  }

  // An EXCEPTION_RECORD: a code, an address, and for an access violation two parameters, the second being where.
  ghost predicate ExceptionRecordAt(m: Bytemap, a: u64, code: u32, pc: u64, faultAddress: u64) {
    && a + 0x18 < WORD
    && Dword(m, a) == code && Dword(m, a + 0x04) == 0 && Dword(m, a + 0x08) == 0
    && Dword(m, a + 0x0C) == pc % 0x1_0000_0000
    && Dword(m, a + 0x10) == (if code == 0xC000_0005 then 2 else 0)
    && Dword(m, a + 0x14) == 0 && Dword(m, a + 0x18) == faultAddress % 0x1_0000_0000
  }

  // A CONTEXT of the given registers.
  ghost predicate ContextAt(m: Bytemap, a: u64, r: Registers, pc: u64) {
    && a + 0xC8 < WORD
    && Dword(m, a) == 0x0001_0007
    && Dword(m, a + 0x8C) == r.segments.gs && Dword(m, a + 0x90) == r.segments.fs
    && Dword(m, a + 0x94) == r.segments.es && Dword(m, a + 0x98) == r.segments.ds
    && Dword(m, a + 0x9C) == Reg32(r, 7) && Dword(m, a + 0xA0) == Reg32(r, 6)
    && Dword(m, a + 0xA4) == Reg32(r, 3) && Dword(m, a + 0xA8) == Reg32(r, 2)
    && Dword(m, a + 0xAC) == Reg32(r, 1) && Dword(m, a + 0xB0) == Reg32(r, 0)
    && Dword(m, a + 0xB4) == Reg32(r, 5) && Dword(m, a + 0xB8) == pc % 0x1_0000_0000
    && Dword(m, a + 0xBC) == r.segments.cs && Dword(m, a + 0xC0) == r.rflags % 0x1_0000_0000
    && Dword(m, a + 0xC4) == Reg32(r, 4) && Dword(m, a + 0xC8) == r.segments.ss
  }

  lemma SeenFrame(m: Bytemap, sp: u64, exc: u64, record: u64, context: u64, trap: u32)
    requires Stored(m, sp, 20, CallFields(context, record, exc, trap), 5) && context < 0x1_0000_0000
    ensures CallFrameAt(m, sp, trap, exc % 0x1_0000_0000, record, context)
  {
    hide Dword;
    var f := CallFields(context, record, exc, trap);
    assert f[0].offset == 16 && f[1].offset == 12 && f[2].offset == 8 && f[3].offset == 4 && f[4].offset == 0;
  }

  lemma SeenException(m: Bytemap, exc: u64, code: u32, pc: u64, faultAddress: u64)
    requires Stored(m, exc, 0x50, ExcFields(code, pc, faultAddress), 7)
    ensures ExceptionRecordAt(m, exc, code, pc, faultAddress)
  {
    hide Dword;
    var f := ExcFields(code, pc, faultAddress);
    assert f[0].offset == 0 && f[1].offset == 4 && f[2].offset == 8 && f[3].offset == 0x0C && f[4].offset == 0x10
           && f[5].offset == 0x14 && f[6].offset == 0x18;
  }

  lemma SeenContext(m: Bytemap, context: u64, r: Registers, pc: u64)
    requires ContextIs(m, context, r, pc)
    ensures ContextAt(m, context, r, pc)
  {
    hide Dword, GetGpr;
    Low32Registers(r.gpr);
    var f := Fields(r, pc);
    assert f[0].offset == 0 && f[1].offset == 0x8C && f[2].offset == 0x90 && f[3].offset == 0x94 && f[4].offset == 0x98;
    assert f[5].offset == 0x9C && f[6].offset == 0xA0 && f[7].offset == 0xA4;
    assert f[8].offset == 0xA8 && f[9].offset == 0xAC;
    assert f[10].offset == 0xB0 && f[11].offset == 0xB4 && f[12].offset == 0xB8 && f[13].offset == 0xBC;
    assert f[14].offset == 0xC0 && f[15].offset == 0xC4 && f[16].offset == 0xC8;
  }
}
