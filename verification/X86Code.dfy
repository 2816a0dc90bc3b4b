// The x86 translation-block cache: looked up by start address, filtered by code page, and pruned by every store.

module X86Code {
  import opened MachineTypes
  import opened FlatMemory
  import opened GuestMemory
  import opened X86Blocks

  type Blocks = map<u64, Block>

  predicate Overlaps(b: Block, from: int, to: int) { b.start < to && from < b.end }

  // The pages between the first and last byte of [from, to), computed as the run loop does: an end of 0 wraps around.
  function FirstPage(from: int): int { from / PAGE_SIZE }
  function LastPage(to: int): int { (to - 1) % WORD / PAGE_SIZE }

  // Every block that holds an instruction has all its pages marked as code.
  ghost predicate Filed(blocks: Blocks, pages: set<int>) {
    forall s :: s in blocks ==>
      && blocks[s].start == s <= blocks[s].end < WORD && (s < blocks[s].end ==> blocks[s].end <= LIMIT)
      && forall p {:trigger p in pages} ::
           blocks[s].start < blocks[s].end && s / PAGE_SIZE <= p <= (blocks[s].end - 1) / PAGE_SIZE ==> p in pages
  }

  // Every block is what translating current memory would give.
  ghost predicate Fresh(read: Reader, m: Bytemap, blocks: Blocks) {
    forall s :: s in blocks ==> blocks[s] == Translation(read, m, s)
  }

  // Bytes that a block's translation looked at beyond its end: where it met unreadable code.
  ghost predicate InTail(read: Reader, m: Bytemap, s: int, x: int) {
    End(read, m, s, MAX_BLOCK_INSNS) <= x < LookEnd(read, m, s, MAX_BLOCK_INSNS)
  }

  ghost predicate MissesTails(read: Reader, m: Bytemap, blocks: Blocks, a: int, n: nat) {
    forall s, x :: s in blocks && a <= x < a + n ==> !InTail(read, m, s, x)
  }

  // The blocks left after a write: none that holds a written byte, and every other one that holds any byte at all.
  ghost predicate Pruned(blocks: Blocks, left: Blocks, a: int, n: nat) {
    && (forall s :: s in left ==> s in blocks && left[s] == blocks[s])
    && (forall s :: s in blocks && blocks[s].start < blocks[s].end ==> (s in left <==> !Overlaps(blocks[s], a, a + n)))
  }

  class BlockCache {
    var blocks: Blocks

    constructor ()
      ensures blocks == map[]
    {
      blocks := map[];
    }

    method Insert(b: Block)
      requires 0 <= b.start < WORD
      modifies this
      ensures blocks == old(blocks)[b.start := b]
    {
      blocks := blocks[b.start := b];
    }

    method Invalidate(from: int, to: int)
      modifies this
      ensures forall s :: s in blocks <==> s in old(blocks) && !Overlaps(old(blocks)[s], from, to)
      ensures forall s :: s in blocks ==> blocks[s] == old(blocks)[s]
    {
      var doomed: set<u64> := {};
      var keys := blocks.Keys;
      while keys != {}
        invariant forall s :: s in keys ==> s in blocks && s !in doomed
        invariant forall s :: s in blocks && s !in keys ==> (s in doomed <==> Overlaps(blocks[s], from, to))
        decreases keys
      {
        var s :| s in keys;
        keys := keys - {s};
        if Overlaps(blocks[s], from, to) {
          doomed := doomed + {s};
        }
      }
      blocks := blocks - doomed;
    }
  }

  class X86Code {
    const read: Reader
    const cache: BlockCache
    const guest: Guest
    var codePages: set<int>

    ghost predicate Valid()
      reads this, cache, guest
    {
      && Filed(cache.blocks, codePages)
      && forall x :: x in guest.bytes ==> 0 <= x < LIMIT
    }

    constructor (read: Reader, guest: Guest)
      requires forall x :: x in guest.bytes ==> 0 <= x < LIMIT
      ensures Valid() && cache.blocks == map[] && this.guest == guest && this.read == read && fresh(cache)
    {
      this.read, this.guest, codePages := read, guest, {};
      cache := new BlockCache();
    }

    // Finds or translates the block at pc. From fresh blocks it returns the fresh translation.
    method Lookup(pc: u64) returns (block: Block)
      requires Valid()
      modifies this`codePages, cache
      ensures Valid()
      ensures pc in old(cache.blocks) ==> block == old(cache.blocks)[pc] && cache.blocks == old(cache.blocks)
      ensures pc !in old(cache.blocks) ==>
                block == Translation(read, guest.bytes, pc) && cache.blocks == old(cache.blocks)[pc := block]
      ensures forall p :: p in codePages <==>
                p in old(codePages) || (pc !in old(cache.blocks) && FirstPage(block.start) <= p <= LastPage(block.end))
      ensures Fresh(read, guest.bytes, old(cache.blocks)) ==>
                block == Translation(read, guest.bytes, pc) && Fresh(read, guest.bytes, cache.blocks)
    {
      hide Ops, End, LookEnd, Filed;
      if pc in cache.blocks {
        return cache.blocks[pc];
      }
      block := TranslateBlock(read, guest.bytes, pc);
      EndBelowLimit(read, guest.bytes, pc, MAX_BLOCK_INSNS);
      cache.Insert(block);
      ghost var pages := codePages;
      var page := FirstPage(block.start);
      while page <= LastPage(block.end)
        invariant FirstPage(block.start) <= page && (page <= LastPage(block.end) + 1 || page == FirstPage(block.start))
        invariant forall p :: p in codePages <==> p in pages || FirstPage(block.start) <= p < page
        invariant cache.blocks == old(cache.blocks)[pc := block]
      {
        codePages := codePages + {page};
        page := page + 1;
      }
      FiledInsert(old(cache.blocks), pages, codePages, pc, block);
    }

    // Drops the blocks that guest memory just changed under. A write that would reach past the last address drops none.
    method NoteWrite(a: u64, size: nat)
      requires Valid() && 0 < size < 0x8000_0000
      modifies cache
      ensures Valid()
      ensures if a + size < WORD then Pruned(old(cache.blocks), cache.blocks, a, size)
              else cache.blocks == old(cache.blocks)
      ensures forall s :: s in cache.blocks ==> s in old(cache.blocks) && cache.blocks[s] == old(cache.blocks)[s]
    {
      hide Filed, Pruned, Overlaps;
      ghost var before := cache.blocks;
      NothingPruned(before, a, size);
      if |cache.blocks| == 0 {
        return;
      }
      var end := (a + size) % WORD;
      var page, last := a / PAGE_SIZE, (end - 1) % WORD / PAGE_SIZE;
      while page <= last
        invariant a / PAGE_SIZE <= page && cache.blocks == before
        invariant forall p :: a / PAGE_SIZE <= p < page ==> p !in codePages
      {
        if page in codePages {
          cache.Invalidate(a, end);
          InvalidatedIs(before, cache.blocks, codePages, a, size, end);
          return;
        }
        page := page + 1;
      }
      if a + size < WORD {
        NothingToDrop(cache.blocks, codePages, a, size);
      }
    }

    // A guest store through any of the paths that report it.
    method Store(a: u64, size: nat, value: u64) returns (ok: bool)
      requires Valid() && 0 < size <= 8
      modifies guest, cache
      ensures Valid()
      ensures ok <==> Has(old(guest.bytes), a, size)
      ensures guest.bytes == StoreIf(old(guest.bytes), a, size, value)
      ensures ok ==> Pruned(old(cache.blocks), cache.blocks, a, size)
      ensures Fresh(read, old(guest.bytes), old(cache.blocks))
              && MissesTails(read, old(guest.bytes), old(cache.blocks), a, size) ==>
                Fresh(read, guest.bytes, cache.blocks)
    {
      NoteWrite(a, size);
      ghost var before := guest.bytes;
      ok := guest.WriteSized(a, size, value);
      if ok {
        assert a in before && a + size - 1 in before;
        if Fresh(read, before, old(cache.blocks)) && MissesTails(read, before, old(cache.blocks), a, size) {
          PrunedStaysFresh(read, before, old(cache.blocks), cache.blocks, a, ToBytes(value, size));
        }
      }
    }
  }

  lemma FiledInsert(blocks: Blocks, pages: set<int>, pages': set<int>, pc: u64, b: Block)
    requires Filed(blocks, pages) && b.start == pc <= b.end < WORD && (pc < b.end ==> b.end <= LIMIT)
    requires forall p :: p in pages' <==> p in pages || FirstPage(b.start) <= p <= LastPage(b.end)
    ensures Filed(blocks[pc := b], pages')
  {
  }

  lemma {:induction false} EndBelowLimit(read: Reader, m: Bytemap, pc: int, n: nat)
    ensures End(read, m, pc, n) <= Max(pc, LIMIT)
    ensures End(read, m, pc, n) > LIMIT ==> End(read, m, pc, n) == pc
    decreases n
  {
    if n > 0 && DecodeAt(read, m, pc).Some? {
      ReadBelowLimit(read, m, pc, [], 1);
      EndBelowLimit(read, m, pc + DecodeAt(read, m, pc).value.length, n - 1);
    }
  }

  lemma {:induction false} ReadBelowLimit(read: Reader, m: Bytemap, pc: int, bytes: seq<byte>, want: Width)
    ensures DecodeFrom(read, m, pc, bytes, want).Some? ==> ReadEnd(read, m, pc, bytes, want) <= LIMIT
    decreases LIMIT - pc - |bytes|
  {
    var at := pc + |bytes|;
    if at + want <= LIMIT && Has(m, at, want) {
      var more := bytes + Fetch(m, at, want);
      if read(pc, more).More? {
        ReadBelowLimit(read, m, pc, more, read(pc, more).count);
      }
    }
  }

  lemma NothingPruned(blocks: Blocks, a: int, n: nat)
    ensures |blocks| == 0 ==> Pruned(blocks, blocks, a, n)
  {
  }

  lemma InvalidatedIs(blocks: Blocks, left: Blocks, pages: set<int>, a: u64, n: nat, end: int)
    requires Filed(blocks, pages) && end == (a + n) % WORD
    requires forall s :: s in left <==> s in blocks && !Overlaps(blocks[s], a, end)
    requires forall s :: s in left ==> left[s] == blocks[s]
    ensures Filed(left, pages)
    ensures if a + n < WORD then Pruned(blocks, left, a, n) else n < 0x8000_0000 ==> left == blocks
  {
    assert a + n >= WORD && n < 0x8000_0000 ==> left.Keys == blocks.Keys;
  }

  // When no page of a write is a code page, no block holds a written byte.
  lemma NothingToDrop(blocks: Blocks, pages: set<int>, a: int, n: nat)
    requires Filed(blocks, pages) && n > 0
    requires forall p :: a / PAGE_SIZE <= p <= (a + n - 1) / PAGE_SIZE ==> p !in pages
    ensures Pruned(blocks, blocks, a, n)
  {
    forall s | s in blocks && blocks[s].start < blocks[s].end ensures !Overlaps(blocks[s], a, a + n) {
      var x := Max(s, a);
      assert s <= x < blocks[s].end ==> x / PAGE_SIZE in pages;
      assert a <= x < a + n ==> x / PAGE_SIZE !in pages;
    }
  }

  // A surviving block whose tail was missed is still fresh.
  lemma PrunedStaysFresh(read: Reader, m: Bytemap, blocks: Blocks, left: Blocks, a: int, data: seq<byte>)
    requires Fresh(read, m, blocks) && MissesTails(read, m, blocks, a, |data|) && Pruned(blocks, left, a, |data|)
             && data != []
    ensures Fresh(read, Patch(m, a, data), left)
  {
    forall s | s in left ensures left[s] == Translation(read, Patch(m, a, data), s) {
      var x := Max(blocks[s].end, a);
      assert a <= x < a + |data| ==> !InTail(read, m, s, x);
      TranslationLocal(read, m, a, data, s);
    }
  }
}
