// When a block can go stale: exactly when a store reaches a byte its translation looked at beyond its end.

module X86Stale {
  import opened MachineTypes
  import opened FlatMemory
  import opened X86Blocks
  import opened X86Code

  // A block translated from m stays cached through a store of one byte at x, yet is not what translating gives now.
  ghost predicate GoesStale(read: Reader, m: Bytemap, start: int, x: int, v: byte) {
    && !Overlaps(Translation(read, m, start), x, x + 1)
    && Translation(read, Patch(m, x, [v]), start) != Translation(read, m, start)
  }

  // ---- the encodings the examples use ----

  const PREFIX: byte := 0x66
  const NOP: byte := 0x90
  const RET: byte := 0xC3
  const TWO_BYTE: byte := 0x0F

  function Prefixes(n: nat): (bytes: seq<byte>)
    ensures |bytes| == n && forall i :: 0 <= i < n ==> bytes[i] == PREFIX
  {
    seq(n, _ => PREFIX)
  }

  // The decoder takes any number of operand-size prefixes one byte at a time; behind them 0x90 is a plain instruction,
  // 0xC3 a return, and 0x0F asks for one byte more.
  ghost predicate ReadsX86(read: Reader) {
    forall pc: int, n: nat ::
      && (n > 0 ==> read(pc, Prefixes(n)) == More(1))
      && read(pc, Prefixes(n) + [NOP]).Done? && read(pc, Prefixes(n) + [NOP]).kind.Straight?
      && read(pc, Prefixes(n) + [RET]).Done? && read(pc, Prefixes(n) + [RET]).kind == Return
      && read(pc, Prefixes(n) + [TWO_BYTE]) == More(1)
  }

  // That much of the decoder, with everything else unimplemented.
  function SmallReader(pc: int, bytes: seq<byte>): Reading {
    if bytes == [] then More(1)
    else if bytes[0] == PREFIX && |bytes| > 1 then SmallReader(pc, bytes[1..])
    else if bytes == [PREFIX] || bytes == [TWO_BYTE] then More(1)
    else if bytes == [NOP] then Done(Straight(0), 0)
    else if bytes == [RET] then Done(Return, 0)
    else Done(Unimplemented, 0)
  }

  lemma {:induction false} SmallReads(pc: int, n: nat)
    ensures n > 0 ==> SmallReader(pc, Prefixes(n)) == More(1)
    ensures SmallReader(pc, Prefixes(n) + [NOP]) == Done(Straight(0), 0)
    ensures SmallReader(pc, Prefixes(n) + [RET]) == Done(Return, 0)
    ensures SmallReader(pc, Prefixes(n) + [TWO_BYTE]) == More(1)
  {
    if n == 0 {
      assert Prefixes(0) == [];
    } else {
      SmallReads(pc, n - 1);
      assert Prefixes(n)[1..] == Prefixes(n - 1);
      assert forall b: byte :: (Prefixes(n) + [b])[1..] == Prefixes(n - 1) + [b];
      if n == 1 {
        assert Prefixes(1) == [PREFIX];
      }
    }
  }

  lemma SmallReaderIsX86()
    ensures ReadsX86(SmallReader)
  {
    forall pc: int, n: nat
      ensures n > 0 ==> SmallReader(pc, Prefixes(n)) == More(1)
      ensures SmallReader(pc, Prefixes(n) + [NOP]) == Done(Straight(0), 0)
      ensures SmallReader(pc, Prefixes(n) + [RET]) == Done(Return, 0)
      ensures SmallReader(pc, Prefixes(n) + [TWO_BYTE]) == More(1)
    {
      SmallReads(pc, n);
    }
  }

  // ---- reading prefixes ----

  lemma {:induction false} FetchOne(m: Bytemap, a: int)
    requires a in m
    ensures Has(m, a, 1) && Fetch(m, a, 1) == [m[a]]
  {
    assert Fetch(m, a + 1, 0) == [];
  }

  // The decoder reads on through n prefixes.
  lemma {:induction false} ReadsOn(read: Reader, m: Bytemap, pc: int, k: nat, n: nat)
    requires ReadsX86(read) && k <= n && pc + n <= LIMIT
    requires forall a :: pc <= a < pc + n ==> a in m && m[a] == PREFIX
    ensures DecodeFrom(read, m, pc, Prefixes(k), 1) == DecodeFrom(read, m, pc, Prefixes(n), 1)
    ensures ReadEnd(read, m, pc, Prefixes(k), 1) == ReadEnd(read, m, pc, Prefixes(n), 1)
    decreases n - k
  {
    if k < n {
      FetchOne(m, pc + k);
      assert Prefixes(k + 1) == Prefixes(k) + [PREFIX];
      assert read(pc, Prefixes(k + 1)) == More(1);
      ReadsOn(read, m, pc, k + 1, n);
    }
  }

  lemma {:induction false} LastFetch(read: Reader, m: Bytemap, pc: int, bytes: seq<byte>)
    requires pc + |bytes| < LIMIT && pc + |bytes| in m && read(pc, bytes + [m[pc + |bytes|]]).Done?
    ensures var d := read(pc, bytes + [m[pc + |bytes|]]);
            && DecodeFrom(read, m, pc, bytes, 1) == Some(MicroOp(d.kind, d.detail, pc, |bytes| + 1))
            && ReadEnd(read, m, pc, bytes, 1) == pc + |bytes| + 1
  {
    FetchOne(m, pc + |bytes|);
  }

  // Prefixes followed by a plain or a returning instruction.
  lemma {:induction false} ReadsThrough(read: Reader, m: Bytemap, pc: int, n: nat)
    requires ReadsX86(read) && pc + n < LIMIT && pc + n in m && (m[pc + n] == NOP || m[pc + n] == RET)
    requires forall a :: pc <= a < pc + n ==> a in m && m[a] == PREFIX
    ensures var one := DecodeAt(read, m, pc);
            && one.Some? && one.value.length == n + 1 && IsTerminator(one.value.kind) == (m[pc + n] == RET)
            && ReadEnd(read, m, pc, [], 1) == pc + n + 1
  {
    hide DecodeFrom, ReadEnd;
    assert Prefixes(0) == [];
    ReadsOn(read, m, pc, 0, n);
    FetchOne(m, pc + n);
    assert read(pc, Prefixes(n) + [m[pc + n]]).Done?;
    LastFetch(read, m, pc, Prefixes(n));
  }

  // Prefixes up to the first unreadable byte.
  lemma {:induction false} ReadsOut(read: Reader, m: Bytemap, pc: int, n: nat)
    requires ReadsX86(read) && pc + n <= LIMIT && pc + n !in m
    requires forall a :: pc <= a < pc + n ==> a in m && m[a] == PREFIX
    ensures DecodeAt(read, m, pc) == None && ReadEnd(read, m, pc, [], 1) == pc + n
  {
    assert Prefixes(0) == [];
    ReadsOn(read, m, pc, 0, n);
    assert !Has(m, pc + n, 1);
  }

  // ---- exactly when ----

  // Whole pages up to look: a prefixed no-op on [start, end), if that is not empty, and prefixes from end on.
  function TailMemory(start: nat, end: nat, look: nat): (m: Bytemap)
    requires start <= end <= look
  {
    var pages := Filled(start / PAGE_SIZE * PAGE_SIZE, look, PREFIX);
    if start < end then pages[end - 1 := NOP] else pages
  }

  // Wherever the translation of a block ends, and whatever page end beyond that its reading stops at, a return
  // instruction stored to any byte between leaves the block cached and stale.
  lemma {:induction false} TailGoesStale(read: Reader, start: nat, end: nat, look: nat, x: nat)
    requires ReadsX86(read)
    requires start <= end <= x < look <= LIMIT && look % PAGE_SIZE == 0
    ensures var m := TailMemory(start, end, look);
            && Mappable(m)
            && End(read, m, start, MAX_BLOCK_INSNS) == end && LookEnd(read, m, start, MAX_BLOCK_INSNS) == look
            && GoesStale(read, m, start, x, RET)
  {
    hide Ops, End, LookEnd, ReadsX86, Filled;
    var m := TailMemory(start, end, look);
    WholePages(start, look, m);
    StopsAtLook(read, m, start, end, look, MAX_BLOCK_INSNS);
    EndsAtReturn(read, Patch(m, x, [RET]), start, end, x, MAX_BLOCK_INSNS);
  }

  // A no-op with prefixes on [start, end), or nothing at all.
  ghost predicate PlainUpTo(m: Bytemap, start: int, end: int) {
    && start <= end < LIMIT
    && forall x :: start <= x < end ==> x in m && m[x] == if x == end - 1 then NOP else PREFIX
  }

  lemma {:induction false} StopsAtLook(read: Reader, m: Bytemap, start: int, end: int, look: int, n: nat)
    requires ReadsX86(read) && PlainUpTo(m, start, end) && end <= look <= LIMIT && look !in m && n >= 2
    requires forall x :: end <= x < look ==> x in m && m[x] == PREFIX
    ensures End(read, m, start, n) == end && LookEnd(read, m, start, n) == look
  {
    hide ReadsX86, DecodeFrom, ReadEnd, End, LookEnd;
    ReadsOut(read, m, end, look - end);
    LastOfBlock(read, m, end, n);
    if start < end {
      ReadsThrough(read, m, start, end - 1 - start);
      FirstOfBlock(read, m, start, end, n);
      LastOfBlock(read, m, end, n - 1);
    }
  }

  lemma {:induction false} EndsAtReturn(read: Reader, m: Bytemap, start: int, end: int, x: int, n: nat)
    requires ReadsX86(read) && PlainUpTo(m, start, end) && end <= x < LIMIT && x in m && m[x] == RET && n >= 2
    requires forall y :: end <= y < x ==> y in m && m[y] == PREFIX
    ensures End(read, m, start, n) == x + 1
  {
    hide ReadsX86, DecodeFrom, ReadEnd, End, LookEnd;
    ReadsThrough(read, m, end, x - end);
    LastOfBlock(read, m, end, n);
    if start < end {
      ReadsThrough(read, m, start, end - 1 - start);
      FirstOfBlock(read, m, start, end, n);
      LastOfBlock(read, m, end, n - 1);
    }
  }

  lemma WholePages(start: nat, look: nat, m: Bytemap)
    requires look % PAGE_SIZE == 0 && look <= LIMIT
    requires forall x :: x in m <==> start / PAGE_SIZE * PAGE_SIZE <= x < look
    ensures Mappable(m)
  {
  }

  // A plain instruction, and then the rest of the block.
  lemma FirstOfBlock(read: Reader, m: Bytemap, start: int, end: int, n: nat)
    requires n > 0
    requires var one := DecodeAt(read, m, start);
             one.Some? && one.value.length == end - start && !IsTerminator(one.value.kind)
    ensures End(read, m, start, n) == End(read, m, end, n - 1)
    ensures LookEnd(read, m, start, n) == LookEnd(read, m, end, n - 1)
  {
    hide DecodeFrom, ReadEnd;
  }

  lemma {:induction false} LastOfBlock(read: Reader, m: Bytemap, pc: int, n: nat)
    requires n > 0
    ensures var one := DecodeAt(read, m, pc);
            && (one == None ==> End(read, m, pc, n) == pc && LookEnd(read, m, pc, n) == ReadEnd(read, m, pc, [], 1))
            && (one.Some? && IsTerminator(one.value.kind) ==> End(read, m, pc, n) == pc + one.value.length)
  {
  }

  // The converse: a store that misses the tail never leaves the block stale. It overlaps the block and drops it, or it
  // changes nothing the block depends on.
  lemma OutsideTailStaysFresh(read: Reader, m: Bytemap, start: int, x: int, v: byte)
    requires !InTail(read, m, start, x)
    ensures !GoesStale(read, m, start, x, v)
  {
    hide Ops, End, LookEnd;
    if !Overlaps(Translation(read, m, start), x, x + 1) {
      TranslationLocal(read, m, x, [v], start);
    }
  }

  // ---- an input ----

  // One page of code, all of it 0x0F. An instruction that starts at its last byte is cut off by the end of the page, so
  // the block there is empty; the byte then becomes a return, and the empty block stays.
  const CODE: nat := 0x1_0000
  const LAST_BYTE: nat := CODE + 0xFFF

  function CutOff(): Bytemap { Filled(CODE, CODE + PAGE_SIZE, TWO_BYTE) }

  lemma CutOffGoesStale(read: Reader)
    requires ReadsX86(read)
    ensures Mappable(CutOff())
    ensures Translation(read, CutOff(), LAST_BYTE) == Block(LAST_BYTE, LAST_BYTE, [Unreadable(LAST_BYTE)])
    ensures GoesStale(read, CutOff(), LAST_BYTE, LAST_BYTE, RET)
    ensures var now := Translation(read, Patch(CutOff(), LAST_BYTE, [RET]), LAST_BYTE);
            now.end == LAST_BYTE + 1 && |now.ops| == 1 && now.ops[0].kind == Return
  {
    hide Ops, End, Filled, DecodeFrom;
    var m := CutOff();
    WholePages(CODE, CODE + PAGE_SIZE, m);
    CutOffUnreadable(read, m, LAST_BYTE);
    ReturnAt(read, Patch(m, LAST_BYTE, [RET]), LAST_BYTE);
    BlockStep(read, m, LAST_BYTE, MAX_BLOCK_INSNS);
    BlockStep(read, Patch(m, LAST_BYTE, [RET]), LAST_BYTE, MAX_BLOCK_INSNS);
  }

  lemma CutOffUnreadable(read: Reader, m: Bytemap, pc: int)
    requires ReadsX86(read) && pc in m && pc + 1 !in m && m[pc] == TWO_BYTE
    ensures DecodeAt(read, m, pc) == None
  {
    FetchOne(m, pc);
    assert [] + Fetch(m, pc, 1) == Prefixes(0) + [TWO_BYTE];
    assert read(pc, Prefixes(0) + [TWO_BYTE]) == More(1);
    assert !Has(m, pc + 1, 1);
    assert DecodeFrom(read, m, pc, Prefixes(0) + [TWO_BYTE], 1) == None;
  }

  lemma ReturnAt(read: Reader, m: Bytemap, pc: int)
    requires ReadsX86(read) && pc in m && pc + 1 <= LIMIT && m[pc] == RET
    ensures var one := DecodeAt(read, m, pc); one.Some? && one.value.kind == Return && one.value.length == 1
  {
    FetchOne(m, pc);
    assert [] + Fetch(m, pc, 1) == Prefixes(0) + [RET];
    assert read(pc, Prefixes(0) + [RET]).Done?;
  }

  // The run loop files an empty block, one whose first instruction is unreadable, under at most one page, except at
  // address 0: there the end wraps around and the loop goes through all 2^52 pages.
  lemma PagesOfEmptyBlock(start: u64)
    ensures start > 0 ==> FirstPage(start) - 1 <= LastPage(start) <= FirstPage(start)
    ensures start == 0 ==> FirstPage(start) == 0 && LastPage(start) == 0xF_FFFF_FFFF_FFFF
  {
  }
}
