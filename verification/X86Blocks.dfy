// Translating guest code into blocks. A decoder is any machine that fetches 1, 2, 4 or 8 bytes at a time and decides
// from those read so far, so what an instruction can depend on is proved here and not assumed.

module X86Blocks {
  import opened MachineTypes
  import opened FlatMemory

  const MAX_BLOCK_INSNS: nat := 256

  datatype Kind =
    | Jump | JumpIndirect | JumpIf | Call | CallIndirect | JumpFar | CallFar | JumpFarIndirect | CallFarIndirect
    | FarReturn | InterruptReturn | Return | Loop | Halt | SystemCall | OverflowInterrupt | Unimplemented
    | Straight(id: nat)

  predicate IsTerminator(kind: Kind) { !kind.Straight? }

  // One decoded instruction; detail stands for everything else its bytes say.
  datatype MicroOp = MicroOp(kind: Kind, detail: int, address: int, length: nat)

  // What the bytes read so far say: fetch that many more in one access, or the instruction is complete.
  datatype Reading = More(count: Width) | Done(kind: Kind, detail: int)

  type Reader = (int, seq<byte>) -> Reading

  // Decodes at pc, with some bytes already read and so many wanted next. There is no bound on the number of prefixes.
  function DecodeFrom(read: Reader, m: Bytemap, pc: int, bytes: seq<byte>, want: Width): (r: Option<MicroOp>)
    ensures r.Some? ==> r.value.address == pc && r.value.length > |bytes|
    decreases LIMIT - pc - |bytes|
  {
    var at := pc + |bytes|;
    if at + want > LIMIT || !Has(m, at, want) then None
    else
      var more := bytes + Fetch(m, at, want);
      match read(pc, more)
      case More(count) => DecodeFrom(read, m, pc, more, count)
      case Done(kind, detail) => Some(MicroOp(kind, detail, pc, |more|))
  }

  // The first fetch is of one byte.
  function DecodeAt(read: Reader, m: Bytemap, pc: int): Option<MicroOp> { DecodeFrom(read, m, pc, [], 1) }

  // Where reading ends: past the instruction, or where the fetch that failed began.
  function ReadEnd(read: Reader, m: Bytemap, pc: int, bytes: seq<byte>, want: Width): (end: int)
    ensures end >= pc + |bytes|
    ensures var r := DecodeFrom(read, m, pc, bytes, want);
            r.Some? ==> r.value.length > |bytes| && end == pc + r.value.length
    decreases LIMIT - pc - |bytes|
  {
    var at := pc + |bytes|;
    if at + want > LIMIT || !Has(m, at, want) then at
    else
      var more := bytes + Fetch(m, at, want);
      match read(pc, more)
      case More(count) => ReadEnd(read, m, pc, more, count)
      case Done(_, _) => at + want
  }

  function Unreadable(pc: int): MicroOp { MicroOp(Unimplemented, 0, pc, 0) }

  // The instructions of a block of at most n from pc on.
  function Ops(read: Reader, m: Bytemap, pc: int, n: nat): seq<MicroOp>
    decreases n
  {
    if n == 0 then []
    else match DecodeAt(read, m, pc)
      case None => [Unreadable(pc)]
      case Some(op) => if IsTerminator(op.kind) then [op] else [op] + Ops(read, m, pc + op.length, n - 1)
  }

  // One past the last instruction of such a block.
  function End(read: Reader, m: Bytemap, pc: int, n: nat): (end: int)
    ensures end >= pc
    decreases n
  {
    if n == 0 then pc
    else match DecodeAt(read, m, pc)
      case None => pc
      case Some(op) =>
        assert ReadEnd(read, m, pc, [], 1) == pc + op.length;
        if IsTerminator(op.kind) then pc + op.length else End(read, m, pc + op.length, n - 1)
  }

  // One past the last byte that translating it looked at: beyond the end only when it stopped at an unreadable byte.
  function LookEnd(read: Reader, m: Bytemap, pc: int, n: nat): (look: int)
    ensures look >= End(read, m, pc, n)
    decreases n
  {
    if n == 0 then pc
    else match DecodeAt(read, m, pc)
      case None => ReadEnd(read, m, pc, [], 1)
      case Some(op) => if IsTerminator(op.kind) then pc + op.length else LookEnd(read, m, pc + op.length, n - 1)
  }

  datatype Block = Block(start: int, end: int, ops: seq<MicroOp>)

  function Translation(read: Reader, m: Bytemap, start: int): Block {
    Block(start, End(read, m, start, MAX_BLOCK_INSNS), Ops(read, m, start, MAX_BLOCK_INSNS))
  }

  // ---- what a translation depends on ----

  ghost predicate Agree(m: Bytemap, m': Bytemap, a: int, b: int) {
    m.Keys == m'.Keys && forall x :: a <= x < b && x in m ==> m[x] == m'[x]
  }

  lemma {:induction false} DecodeLocal(read: Reader, m: Bytemap, m': Bytemap, pc: int, bytes: seq<byte>, want: Width)
    requires Agree(m, m', pc + |bytes|, ReadEnd(read, m, pc, bytes, want))
    ensures DecodeFrom(read, m', pc, bytes, want) == DecodeFrom(read, m, pc, bytes, want)
    ensures ReadEnd(read, m', pc, bytes, want) == ReadEnd(read, m, pc, bytes, want)
    decreases LIMIT - pc - |bytes|
  {
    var at := pc + |bytes|;
    SameReadable(m, m', at, want);
    if at + want <= LIMIT && Has(m, at, want) {
      var more := bytes + Fetch(m, at, want);
      assert ReadEnd(read, m, pc, bytes, want) >= at + want;
      FetchFrame(m, m', at, want);
      if read(pc, more).More? {
        DecodeLocal(read, m, m', pc, more, read(pc, more).count);
      }
    }
  }

  lemma SameReadable(m: Bytemap, m': Bytemap, a: int, n: nat)
    requires m.Keys == m'.Keys
    ensures Has(m, a, n) == Has(m', a, n)
  {
    assert forall x :: x in m <==> x in m';
  }

  // A block depends on nothing beyond what its translation looked at.
  lemma {:induction false} OpsLocal(read: Reader, m: Bytemap, m': Bytemap, pc: int, n: nat)
    requires Agree(m, m', pc, LookEnd(read, m, pc, n))
    ensures Ops(read, m', pc, n) == Ops(read, m, pc, n) && End(read, m', pc, n) == End(read, m, pc, n)
    ensures LookEnd(read, m', pc, n) == LookEnd(read, m, pc, n)
    decreases n
  {
    hide ReadEnd, DecodeFrom;
    if n > 0 {
      var one := DecodeAt(read, m, pc);
      assert one.Some? ==> ReadEnd(read, m, pc, [], 1) == pc + one.value.length;
      assert ReadEnd(read, m, pc, [], 1) <= LookEnd(read, m, pc, n);
      DecodeLocal(read, m, m', pc, [], 1);
      if one.Some? && !IsTerminator(one.value.kind) {
        OpsLocal(read, m, m', pc + one.value.length, n - 1);
      }
    }
  }

  lemma {:induction false} TranslationLocal(read: Reader, m: Bytemap, a: int, data: seq<byte>, start: int)
    requires a + |data| <= start || LookEnd(read, m, start, MAX_BLOCK_INSNS) <= Max(start, a)
    ensures Translation(read, Patch(m, a, data), start) == Translation(read, m, start)
  {
    var m' := Patch(m, a, data);
    assert m'.Keys == m.Keys;
    OpsLocal(read, m, m', start, MAX_BLOCK_INSNS);
  }

  // One instruction of a block.
  lemma BlockStep(read: Reader, m: Bytemap, pc: int, n: nat)
    requires n > 0
    ensures match DecodeAt(read, m, pc)
            case None => Ops(read, m, pc, n) == [Unreadable(pc)] && End(read, m, pc, n) == pc
            case Some(op) =>
              && op.address == pc
              && if IsTerminator(op.kind) then Ops(read, m, pc, n) == [op] && End(read, m, pc, n) == pc + op.length
                 else && Ops(read, m, pc, n) == [op] + Ops(read, m, pc + op.length, n - 1)
                      && End(read, m, pc, n) == End(read, m, pc + op.length, n - 1)
  {
  }

  lemma {:induction false} BlockFull(read: Reader, m: Bytemap, pc: int)
    ensures Ops(read, m, pc, 0) == [] && End(read, m, pc, 0) == pc
  {
  }

  // The instructions of a block of at most n from pc on: each is what is decoded where the one before it ends, or, last
  // of all, the fault marker where nothing can be. Only the last is a jump, a call, a return or anything else that is
  // not a plain instruction, and it is one unless the block is full.
  ghost predicate WellBuilt(read: Reader, m: Bytemap, pc: int, n: nat, ops: seq<MicroOp>, end: int) {
    && 0 < |ops| <= n && ops[0].address == pc
    && (forall i, j :: 0 <= i && j == i + 1 < |ops| ==> ops[j].address == ops[i].address + ops[i].length)
    && (forall i :: 0 <= i < |ops| ==>
          match DecodeAt(read, m, ops[i].address)
          case Some(op) => ops[i] == op
          case None => i == |ops| - 1 && ops[i].kind == Unimplemented && ops[i].length == 0)
    && (forall i :: 0 <= i < |ops| - 1 ==> ops[i].kind.Straight?)
    && (ops[|ops| - 1].kind.Straight? ==> |ops| == n)
    && end == ops[|ops| - 1].address + ops[|ops| - 1].length
  }

  lemma {:induction false} OpsWellBuilt(read: Reader, m: Bytemap, pc: int, n: nat)
    requires n > 0
    ensures WellBuilt(read, m, pc, n, Ops(read, m, pc, n), End(read, m, pc, n))
    decreases n
  {
    hide DecodeFrom, ReadEnd, WellBuilt;
    var one := DecodeAt(read, m, pc);
    BlockStep(read, m, pc, n);
    if one.None? {
      LastWellBuilt(read, m, pc, n, Unreadable(pc));
    } else if IsTerminator(one.value.kind) {
      LastWellBuilt(read, m, pc, n, one.value);
    } else if n == 1 {
      BlockFull(read, m, pc + one.value.length);
      assert [one.value] + [] == [one.value];
      LastWellBuilt(read, m, pc, n, one.value);
    } else {
      var next := pc + one.value.length;
      OpsWellBuilt(read, m, next, n - 1);
      FirstWellBuilt(read, m, pc, n, one.value, Ops(read, m, next, n - 1), End(read, m, next, n - 1));
    }
  }

  lemma LastWellBuilt(read: Reader, m: Bytemap, pc: int, n: nat, op: MicroOp)
    requires n > 0 && op.address == pc && (op.kind.Straight? ==> n == 1)
    requires match DecodeAt(read, m, pc) case Some(d) => op == d case None => op == Unreadable(pc)
    ensures WellBuilt(read, m, pc, n, [op], pc + op.length)
  {
    hide DecodeFrom;
  }

  lemma FirstWellBuilt(read: Reader, m: Bytemap, pc: int, n: nat, op: MicroOp, rest: seq<MicroOp>, end: int)
    requires n > 1 && DecodeAt(read, m, pc) == Some(op) && op.address == pc && op.kind.Straight?
    requires WellBuilt(read, m, pc + op.length, n - 1, rest, end)
    ensures WellBuilt(read, m, pc, n, [op] + rest, end)
  {
    hide DecodeFrom, DecodeAt;
    var ops := [op] + rest;
    forall i | 0 < i < |ops| ensures ops[i] == rest[i - 1] {
    }
  }

  // Builds a block. Unreadable code ends it with a fault marker.
  method TranslateBlock(read: Reader, m: Bytemap, start: int) returns (block: Block)
    ensures block == Translation(read, m, start)
    ensures block.start == start && WellBuilt(read, m, start, 256, block.ops, block.end)
  {
    hide Ops, End, DecodeFrom, WellBuilt;
    OpsWellBuilt(read, m, start, MAX_BLOCK_INSNS);
    var ops: seq<MicroOp> := [];
    var current := start;
    var i := 0;
    while i < MAX_BLOCK_INSNS
      invariant i <= MAX_BLOCK_INSNS
      invariant Ops(read, m, start, MAX_BLOCK_INSNS) == ops + Ops(read, m, current, MAX_BLOCK_INSNS - i)
      invariant End(read, m, start, MAX_BLOCK_INSNS) == End(read, m, current, MAX_BLOCK_INSNS - i)
    {
      BlockStep(read, m, current, MAX_BLOCK_INSNS - i);
      match DecodeAt(read, m, current) {
        case None =>
          ops := ops + [Unreadable(current)];
          return Block(start, current, ops);
        case Some(op) =>
          ops := ops + [op];
          current := op.address + op.length;
          if IsTerminator(op.kind) {
            return Block(start, current, ops);
          }
      }
      i := i + 1;
    }
    BlockFull(read, m, current);
    block := Block(start, current, ops);
  }
}
