// The DOS allocator itself: the chain lives as 5-byte headers in guest memory and is walked and rewritten in
// place with 16-bit segment arithmetic.

module Mcb {
  import opened MachineTypes
  import opened McbChain

  // A (quint16) cast.
  function U16(x: int): (r: u16)
    ensures 0 <= x < 0x1_0000 ==> r == x
  {
    x % 0x1_0000
  }

  // A little-endian word from its two bytes.
  function Word(lo: int, hi: int): int { lo + 256 * hi }

  predicate InHeader(a: int, pos: int) { pos * 16 <= a < pos * 16 + 5 }

  // No byte outside a stretch belongs to a header of a paragraph in it.
  lemma OutsideHeader(a: int, pos: int, start: int, span: int)
    requires start <= pos < start + span && !(start * 16 <= a < (start + span) * 16)
    ensures !InHeader(a, pos)
  {
  }

  // Outside the first header, and outside the second where there is one.
  predicate Elsewhere(a: int, first: int, split: bool, second: int) {
    !InHeader(a, first) && !(split && InHeader(a, second))
  }

  ghost predicate HeaderIs(m: seq<byte>, pos: int, kind: byte, b: Block) {
    && 0 <= pos && pos * 16 + 5 <= |m|
    && m[pos * 16] == kind
    && Word(m[pos * 16 + 1], m[pos * 16 + 2]) == b.owner
    && Word(m[pos * 16 + 3], m[pos * 16 + 4]) == b.size
  }

  // The blocks' headers are in memory from paragraph at on; only the very last block may be marked as last.
  ghost predicate Encodes(m: seq<byte>, bs: seq<Block>, at: int, last: bool) {
    bs != [] ==>
      && HeaderIs(m, at, if |bs| == 1 && last then TYPE_LAST else TYPE_MORE, bs[0])
      && Encodes(m, bs[1..], at + 1 + bs[0].size, last)
  }

  lemma {:induction false} EncodesConcat(m: seq<byte>, xs: seq<Block>, ys: seq<Block>, at: int, last: bool)
    requires ys != []
    ensures Encodes(m, xs + ys, at, last) <==> Encodes(m, xs, at, false) && Encodes(m, ys, at + Span(xs), last)
  {
    if xs == [] {
      assert xs + ys == ys;
    } else {
      assert (xs + ys)[1..] == xs[1..] + ys;
      EncodesConcat(m, xs[1..], ys, at + 1 + xs[0].size, last);
    }
  }

  lemma {:induction false} EncodesFrame(m: seq<byte>, n: seq<byte>, bs: seq<Block>, at: int, last: bool)
    requires Encodes(m, bs, at, last) && |m| == |n|
    requires forall a :: at * 16 <= a < (at + Span(bs)) * 16 && 0 <= a < |m| ==> m[a] == n[a]
    ensures Encodes(n, bs, at, last)
  {
    if bs != [] {
      EncodesFrame(m, n, bs[1..], at + 1 + bs[0].size, last);
    }
  }

  lemma {:induction false} HeaderAt(m: seq<byte>, bs: seq<Block>, at: int, k: nat)
    requires Encodes(m, bs, at, true) && k < |bs|
    ensures HeaderIs(m, at + Span(bs[..k]), if k == |bs| - 1 then TYPE_LAST else TYPE_MORE, bs[k])
  {
    if k > 0 {
      HeaderAt(m, bs[1..], at + 1 + bs[0].size, k - 1);
      assert bs[..k][1..] == bs[1..][..k - 1];
    }
  }

  // Rewriting a stretch of the chain: new headers inside the stretch, every byte outside it kept.
  lemma {:induction false} Rewritten(m: seq<byte>, n: seq<byte>, xs: seq<Block>, ms: seq<Block>, ps: seq<Block>,
                                     ys: seq<Block>, at: int)
    requires Encodes(m, xs + ms + ys, at, true) && |m| == |n| && ms != [] && ps != [] && Span(ms) == Span(ps)
    requires Encodes(n, ps, at + Span(xs), ys == [])
    requires forall a :: 0 <= a < |m| && !((at + Span(xs)) * 16 <= a < (at + Span(xs) + Span(ms)) * 16) ==> m[a] == n[a]
    ensures Encodes(n, xs + ps + ys, at, true)
  {
    hide HeaderIs;
    var mid := at + Span(xs);
    assert xs + ms + ys == xs + (ms + ys) && xs + ps + ys == xs + (ps + ys);
    EncodesConcat(m, xs, ms + ys, at, true);
    EncodesConcat(n, xs, ps + ys, at, true);
    EncodesFrame(m, n, xs, at, false);
    if ys == [] {
      assert ps + ys == ps;
    } else {
      EncodesConcat(m, ms, ys, mid, true);
      EncodesConcat(n, ps, ys, mid, true);
      EncodesFrame(m, n, ys, mid + Span(ms), true);
    }
  }

  // A byte inside the memory of an owned block.
  ghost predicate OwnedByte(bs: seq<Block>, at: int, pos: int, a: int) {
    && BlockAt(bs, at, pos).Some? && BlockAt(bs, at, pos).value.owner != 0
    && (pos + 1) * 16 <= a < (pos + 1 + BlockAt(bs, at, pos).value.size) * 16
  }

  // A block that starts outside a stretch lies entirely outside it.
  lemma {:induction false} OutsideStretch(xs: seq<Block>, ms: seq<Block>, ys: seq<Block>, at: int, pos: int)
    requires BlockAt(xs + ms + ys, at, pos).Some? && !(at + Span(xs) <= pos < at + Span(xs) + Span(ms))
    ensures var b := BlockAt(xs + ms + ys, at, pos).value;
            pos + 1 + b.size <= at + Span(xs) || at + Span(xs) + Span(ms) <= pos
  {
    BlockAtConcat(xs + ms, ys, at, pos);
    BlockAtConcat(xs, ms, at, pos);
    SpanConcat(xs, ms);
    BlockAtBounds(xs, at, pos);
    BlockAtBounds(ms, at + Span(xs), pos);
    BlockAtBounds(ys, at + Span(xs + ms), pos);
  }

  // No byte of an owned block other than block k lies in what a free or resize of block k rewrites.
  lemma OwnedApart(bs: seq<Block>, at: int, k: nat, pos: int, a: int)
    requires k < |bs| && OwnedByte(bs, at, pos, a) && pos != at + Span(bs[..k])
    ensures var mid := at + Span(bs[..k]); !(mid * 16 <= a < (mid + 1 + Reach(bs, k)) * 16)
  {
    AbsorbedStretch(bs, k);
    var r := FreeRun(bs[k + 1..]);
    var ms := bs[k..k + 1 + r];
    StretchOf(bs[..k], ms, bs[k + 1 + r..], at, pos);
    assert ms[0] == bs[k] && ms[1..] == bs[k + 1..][..r];
    FreeBlocksOnly(ms[1..], at + Span(bs[..k]) + 1 + bs[k].size, pos);
    OutsideStretch(bs[..k], ms, bs[k + 1 + r..], at, pos);
  }

  // From chain bs to chain cs: every owned block but the one at paragraph except keeps its place, size and bytes.
  ghost predicate OwnedKept(bs: seq<Block>, cs: seq<Block>, m: seq<byte>, n: seq<byte>, at: int, except: int) {
    && |m| == |n|
    && (forall pos :: pos != except && BlockAt(bs, at, pos).Some? && BlockAt(bs, at, pos).value.owner != 0 ==>
          BlockAt(cs, at, pos) == BlockAt(bs, at, pos))
    && (forall pos, a :: pos != except && OwnedByte(bs, at, pos, a) && 0 <= a < |m| ==> m[a] == n[a])
  }

  lemma NothingTouched(bs: seq<Block>, m: seq<byte>, at: int)
    ensures forall except :: OwnedKept(bs, bs, m, m, at, except)
  {
  }

  lemma AllocOwnedKept(bs: seq<Block>, at: int, k: nat, n: u16, psp: u16, m: seq<byte>, m': seq<byte>)
    requires k < |bs| && bs[k].owner == 0 && n <= bs[k].size && |m| == |m'|
    requires var mid := at + Span(bs[..k]);
             forall a :: 0 <= a < |m| && !(mid * 16 <= a < (mid + 1 + bs[k].size) * 16) ==> m[a] == m'[a]
    ensures OwnedKept(bs, AllocAt(bs, k, n, psp), m, m', at, -1)
  {
    hide Span, BlockAt, AllocAt;
    var mid := at + Span(bs[..k]);
    forall pos | BlockAt(bs, at, pos).Some? && BlockAt(bs, at, pos).value.owner != 0
      ensures BlockAt(AllocAt(bs, k, n, psp), at, pos) == BlockAt(bs, at, pos)
      ensures pos + 1 + BlockAt(bs, at, pos).value.size <= mid || mid + 1 + bs[k].size <= pos
    {
      AllocKeepsOthers(bs, at, k, n, psp, pos);
      SpanOne(bs[k]);
      assert bs == bs[..k] + [bs[k]] + bs[k + 1..] && [bs[k]][1..] == [];
      StretchOf(bs[..k], [bs[k]], bs[k + 1..], at, pos);
      FreeBlocksOnly([bs[k]], mid, pos);
      OutsideStretch(bs[..k], [bs[k]], bs[k + 1..], at, pos);
    }
  }

  lemma {:induction false} AbsorbOwnedKept(bs: seq<Block>, at: int, k: nat, middle: seq<Block>, m: seq<byte>,
                                           m': seq<byte>)
    requires k < |bs| && Span(middle) == 1 + Reach(bs, k) && |m| == |m'|
    requires var mid := at + Span(bs[..k]);
             forall a :: 0 <= a < |m| && !(mid * 16 <= a < (mid + 1 + Reach(bs, k)) * 16) ==> m[a] == m'[a]
    ensures OwnedKept(bs, Absorbed(bs, k, middle), m, m', at, at + Span(bs[..k]))
  {
    hide Span, BlockAt, Absorbed, Reach;
    var mid := at + Span(bs[..k]);
    forall pos | pos != mid && BlockAt(bs, at, pos).Some? && BlockAt(bs, at, pos).value.owner != 0
      ensures BlockAt(Absorbed(bs, k, middle), at, pos) == BlockAt(bs, at, pos)
    {
      AbsorbKeepsOthers(bs, at, k, middle, pos);
    }
    forall pos, a | pos != mid && OwnedByte(bs, at, pos, a) && 0 <= a < |m| ensures m[a] == m'[a] {
      OwnedApart(bs, at, k, pos, a);
    }
  }

  // Where the first chain's headers go and what they say, all in 16 bits.
  datatype Setup = Setup(environment: u16, program: u16, programBlock: Block, split: bool, rest: u16, restBlock: Block)

  function SetupOf(envSeg: u16, envParas: u16, psp: u16, pspParas: u16, memTop: u16): Setup {
    var rest := U16(psp + pspParas);
    Setup(U16(envSeg - 1), U16(psp - 1), Block(psp, if rest < memTop then pspParas else U16(memTop - psp)),
          rest < memTop, rest, Block(0, U16(memTop - rest - 1)))
  }

  // The program follows its environment, and nothing reaches past the 16-bit segments.
  predicate Contiguous(envSeg: u16, envParas: u16, psp: u16, pspParas: u16, memTop: u16) {
    envSeg > 0 && psp == envSeg + envParas + 1 && psp <= memTop && psp + pspParas < 0x1_0000
  }

  class McbArena {
    const memory: array<byte>
    var firstMcb: u16
    var pspSeg: u16
    ghost var blocks: seq<Block>
    ghost var top: u16

    ghost predicate Valid()
      reads this, memory
    {
      && memory.Length >= 0x10_0000 && blocks != []
      && firstMcb + Span(blocks) == top
      && Encodes(memory[..], blocks, firstMcb, true)
    }

    constructor (memory: array<byte>, pspSeg: u16)
      ensures this.memory == memory && this.pspSeg == pspSeg
    {
      this.memory, this.pspSeg, firstMcb, blocks, top := memory, pspSeg, 0, [], 0;
    }

    function McbType(mcb: u16): byte
      requires memory.Length >= 0x10_0000
      reads memory
    {
      memory[mcb * 16]
    }

    function McbOwner(mcb: u16): u16
      requires memory.Length >= 0x10_0000
      reads memory
    {
      Word(memory[mcb * 16 + 1], memory[mcb * 16 + 2])
    }

    function McbSize(mcb: u16): u16
      requires memory.Length >= 0x10_0000
      reads memory
    {
      Word(memory[mcb * 16 + 3], memory[mcb * 16 + 4])
    }

    method McbWrite(mcb: u16, kind: byte, owner: u16, size: u16)
      requires memory.Length >= 0x10_0000
      modifies memory
      ensures HeaderIs(memory[..], mcb, kind, Block(owner, size))
      ensures forall a :: 0 <= a < memory.Length && !InHeader(a, mcb) ==> memory[a] == old(memory[a])
      ensures forall pos, k, b :: pos != mcb && HeaderIs(old(memory[..]), pos, k, b) ==> HeaderIs(memory[..], pos, k, b)
    {
      var b := mcb * 16;
      memory[b] := kind;
      memory[b + 1] := owner % 256;
      memory[b + 2] := owner / 256;
      memory[b + 3] := size % 256;
      memory[b + 4] := size / 256;
    }

    // The headers block k's neighbourhood shows to a walk that has reached it.
    lemma AtBlock(k: nat)
      requires Valid() && k < |blocks|
      ensures var mcb := firstMcb + Span(blocks[..k]);
              && mcb + 1 + blocks[k].size <= top
              && McbType(mcb) == (if k == |blocks| - 1 then TYPE_LAST else TYPE_MORE)
              && McbOwner(mcb) == blocks[k].owner && McbSize(mcb) == blocks[k].size
              && mcb + 1 + blocks[k].size == firstMcb + Span(blocks[..k + 1])
    {
      SpanSplit(blocks, k);
      HeaderAt(memory[..], blocks, firstMcb, k);
    }

    // The first chain of a program: headers for its environment, for itself and, where the program does not own
    // everything up to the top, for the free rest. Of headers in the same place the one written last counts.
    method McbSetup(envSeg: u16, envParas: u16, psp: u16, pspParas: u16, memTop: u16)
      requires memory.Length >= 0x10_0000
      modifies this, memory
      ensures firstMcb == U16(envSeg - 1) && pspSeg == old(pspSeg)
      ensures var s := SetupOf(envSeg, envParas, psp, pspParas, memTop);
              && (s.split ==> HeaderIs(memory[..], s.rest, TYPE_LAST, s.restBlock))
              && ((s.split && s.program == s.rest) ||
                  HeaderIs(memory[..], s.program, if s.split then TYPE_MORE else TYPE_LAST, s.programBlock))
              && (s.environment == s.program || (s.split && s.environment == s.rest) ||
                  HeaderIs(memory[..], s.environment, TYPE_MORE, Block(psp, envParas)))
              && forall a ::
                   0 <= a < memory.Length && !InHeader(a, s.environment) && Elsewhere(a, s.program, s.split, s.rest) ==>
                   memory[a] == old(memory[a])
      ensures Contiguous(envSeg, envParas, psp, pspParas, memTop) ==>
                && Valid() && top == memTop
                && blocks == [Block(psp, envParas)] +
                             (if psp + pspParas < memTop then
                                [Block(psp, pspParas), Block(0, memTop - psp - pspParas - 1)]
                              else [Block(psp, memTop - psp)])
    {
      hide Encodes, Span, HeaderIs, U16;
      ghost var s := SetupOf(envSeg, envParas, psp, pspParas, memTop);
      var envMcb, pspMcb := U16(envSeg - 1), U16(psp - 1);
      McbWrite(envMcb, TYPE_MORE, psp, envParas);
      var afterPsp := U16(psp + pspParas);
      if afterPsp < memTop {
        McbWrite(pspMcb, TYPE_MORE, psp, pspParas);
        McbWrite(afterPsp, TYPE_LAST, 0, U16(memTop - afterPsp - 1));
        if Contiguous(envSeg, envParas, psp, pspParas, memTop) {
          blocks := [Block(psp, envParas), Block(psp, pspParas), Block(0, memTop - psp - pspParas - 1)];
          EncodesThree(memory[..], blocks, envMcb);
        }
      } else {
        McbWrite(pspMcb, TYPE_LAST, psp, U16(memTop - psp));
        if Contiguous(envSeg, envParas, psp, pspParas, memTop) {
          blocks := [Block(psp, envParas), Block(psp, memTop - psp)];
          EncodesTwo(memory[..], blocks, envMcb, true);
        }
      }
      firstMcb, top := envMcb, memTop;
    }

    // First-fit allocation for the current process. A failure reports the largest free block.
    method MemAlloc(paras: u16) returns (ok: bool, seg: u16, maxParas: u16)
      requires Valid()
      modifies memory, this`blocks
      ensures Valid()
      ensures ok <==> FirstFit(old(blocks), paras).Some?
      ensures ok ==> var k := FirstFit(old(blocks), paras).value;
                     && k < |old(blocks)| && paras <= old(blocks)[k].size
                     && blocks == AllocAt(old(blocks), k, paras, pspSeg)
                     && seg == firstMcb + Span(old(blocks)[..k]) + 1
                     && forall a ::
                          0 <= a < memory.Length
                          && Elsewhere(a, seg - 1, old(blocks)[k].size > paras + 1, seg + paras) ==>
                          memory[a] == old(memory[a])
      ensures OwnedKept(old(blocks), blocks, old(memory[..]), memory[..], firstMcb, -1)
      ensures !ok ==> blocks == old(blocks) && memory[..] == old(memory[..]) && maxParas == LargestFree(blocks)
    {
      hide Encodes, Span, HeaderIs, AllocAt, U16, LargestFree, FirstFit, OwnedKept;
      var best: u16 := 0;
      var mcb := firstMcb;
      ghost var k: nat := 0;
      SpanOne(blocks[0]);
      ScanStart(paras);
      assert blocks[..0] == [] && blocks[0..] == blocks;
      NothingTouched(blocks, memory[..], firstMcb);
      while true
        invariant k < |blocks| && mcb == firstMcb + Span(blocks[..k]) && Valid()
        invariant blocks == old(blocks) && memory[..] == old(memory[..])
        invariant best == LargestFree(blocks[..k]) && FirstFit(blocks[..k], paras).None?
        decreases |blocks| - k
      {
        AtBlock(k);
        ScanStep(blocks, k, paras);
        var size := McbSize(mcb);
        if McbOwner(mcb) == 0 {
          if size > best {
            best := size;
          }
          if size >= paras {
            Take(mcb, paras, k);
            AllocOwnedKept(old(blocks), firstMcb, k, paras, pspSeg, old(memory[..]), memory[..]);
            return true, U16(mcb + 1), 0;
          }
        }
        if McbType(mcb) == TYPE_LAST {
          break;
        }
        mcb := U16(mcb + 1 + size);
        k := k + 1;
      }
      assert blocks[..|blocks|] == blocks;
      ok, seg, maxParas := false, 0, best;
    }

    // Hands free block k out, keeping a remainder of two paragraphs or more as a free block.
    method Take(mcb: u16, paras: u16, ghost k: nat)
      requires Valid() && k < |blocks| && mcb == firstMcb + Span(blocks[..k]) && paras <= blocks[k].size
      modifies memory, this`blocks
      ensures Valid() && blocks == AllocAt(old(blocks), k, paras, pspSeg)
      ensures forall a ::
                0 <= a < memory.Length && Elsewhere(a, mcb, old(blocks)[k].size > paras + 1, mcb + 1 + paras) ==>
                memory[a] == old(memory[a])
    {
      hide Encodes, Span, HeaderIs, U16, InHeader, Word;
      AtBlock(k);
      var size := McbSize(mcb);
      CarveSpan(pspSeg, size, paras);
      AllocKeepsSpan(blocks, k, paras, pspSeg);
      ghost var stretch := [blocks[k]];
      SpanOne(blocks[k]);
      assert blocks == blocks[..k] + stretch + blocks[k + 1..] && stretch[1..] == [];
      if size > paras + 1 {
        var rest := U16(mcb + 1 + paras);
        McbWrite(rest, McbType(mcb), 0, U16(size - paras - 1));
        McbWrite(mcb, TYPE_MORE, pspSeg, paras);
        EncodesTwo(memory[..], Carve(pspSeg, size, paras), mcb, blocks[k + 1..] == []);
      } else {
        McbWrite(mcb, McbType(mcb), pspSeg, size);
        EncodesOne(memory[..], Carve(pspSeg, size, paras), mcb, blocks[k + 1..] == []);
      }
      forall a | 0 <= a < memory.Length && !(mcb * 16 <= a < (mcb + 1 + size) * 16)
        ensures old(memory[..])[a] == memory[..][a]
      {
        OutsideHeader(a, mcb, mcb, 1 + size);
        if size > paras + 1 {
          OutsideHeader(a, mcb + 1 + paras, mcb, 1 + size);
        }
      }
      Rewritten(old(memory[..]), memory[..], blocks[..k], stretch, Carve(pspSeg, size, paras), blocks[k + 1..],
                firstMcb);
      blocks := AllocAt(blocks, k, paras, pspSeg);
    }

    // Joins block k with the free block after it.
    method MergeHeader(mcb: u16, next: u16, ghost k: nat)
      requires Valid() && k + 1 < |blocks| && mcb == firstMcb + Span(blocks[..k]) && next == mcb + 1 + blocks[k].size
      requires blocks[k].owner == 0 && blocks[k + 1].owner == 0
      modifies memory, this`blocks
      ensures Valid() && old(blocks)[k].size + 1 + old(blocks)[k + 1].size < 0x1_0000
      ensures blocks == MergeNext(old(blocks), k)
      ensures forall a :: 0 <= a < memory.Length && !InHeader(a, mcb) ==> memory[a] == old(memory[a])
    {
      hide Encodes, Span, HeaderIs, U16, Reach, Absorbed, InHeader, Word;
      AtBlock(k);
      AtBlock(k + 1);
      ghost var ms := [blocks[k], blocks[k + 1]];
      assert blocks == blocks[..k] + ms + blocks[k + 2..];
      SpanTwo(blocks[k], blocks[k + 1]);
      MergeStep(blocks, k, []);
      ghost var merged := MergeNext(blocks, k);
      ghost var ps := [merged[k]];
      SpanOne(merged[k]);
      McbWrite(mcb, McbType(next), 0, U16(McbSize(mcb) + 1 + McbSize(next)));
      EncodesOne(memory[..], ps, mcb, blocks[k + 2..] == []);
      forall a | 0 <= a < memory.Length && !(mcb * 16 <= a < (mcb + Span(ms)) * 16)
        ensures old(memory[..])[a] == memory[..][a]
      {
        OutsideHeader(a, mcb, mcb, Span(ms));
      }
      Rewritten(old(memory[..]), memory[..], blocks[..k], ms, ps, blocks[k + 2..], firstMcb);
      blocks := merged;
    }

    // Frees the block at seg and absorbs the free blocks right after it. Only its own header changes.
    method MemFree(seg: u16, ghost k: nat) returns (ok: bool)
      requires Valid() && k < |blocks| && seg == firstMcb + Span(blocks[..k]) + 1
      modifies memory, this`blocks
      ensures Valid() && ok && Reach(old(blocks), k) < 0x1_0000
      ensures blocks == FreeAt(old(blocks), k)
      ensures old(blocks)[k].owner == 0 ==> blocks == old(blocks) && memory[..] == old(memory[..])
      ensures old(blocks)[k].owner != 0 ==>
                && FreesBlock(old(blocks), blocks, k) && McbOwner(seg - 1) == 0 && McbSize(seg - 1) == blocks[k].size
      ensures forall n: u16 :: n <= blocks[k].size ==> FirstFit(blocks, n).Some?
      ensures OwnedKept(old(blocks), blocks, old(memory[..]), memory[..], firstMcb, seg - 1)
      ensures forall a :: 0 <= a < memory.Length && !InHeader(a, seg - 1) ==> memory[a] == old(memory[a])
    {
      hide Encodes, Span, HeaderIs, U16, MergeNext, Reach, Absorbed, FreeRun, OwnedKept, FreesBlock;
      var mcb := U16(seg - 1);
      AtBlock(k);
      ReachFits(k);
      NothingTouched(blocks, memory[..], firstMcb);
      FreeAtMeans(blocks, k);
      if McbOwner(mcb) == 0 {
        FreeHasFit(blocks, k);
        return true;
      }
      ghost var was := blocks;
      ghost var middle := [Block(0, Reach(was, k))];
      MarkFree(mcb, k);
      MarkedSame(was, k, middle);
      AbsorbFree(mcb, k);
      SpanOne(middle[0]);
      AbsorbOwnedKept(was, firstMcb, k, middle, old(memory[..]), memory[..]);
      FreedFirst(was, blocks, k);
      AtBlock(k);
      FreeHasFit(blocks, k);
      ok := true;
    }

    // Joins free block k with every free block right after it, one at a time.
    method AbsorbFree(mcb: u16, ghost k: nat)
      requires Valid() && k < |blocks| && mcb == firstMcb + Span(blocks[..k]) && blocks[k].owner == 0
      modifies memory, this`blocks
      ensures Valid() && Reach(old(blocks), k) < 0x1_0000
      ensures blocks == Absorbed(old(blocks), k, [Block(0, Reach(old(blocks), k))])
      ensures forall a :: 0 <= a < memory.Length && !InHeader(a, mcb) ==> memory[a] == old(memory[a])
    {
      hide Encodes, Span, HeaderIs, U16, MergeNext, Reach, Absorbed, FreeRun, InHeader, Word;
      ReachFits(k);
      ghost var middle := [Block(0, Reach(blocks, k))];
      AtBlock(k);
      while McbType(mcb) != TYPE_LAST
        invariant Valid() && k < |blocks| && mcb == firstMcb + Span(blocks[..k]) && blocks[k].owner == 0
        invariant McbType(mcb) == if k == |blocks| - 1 then TYPE_LAST else TYPE_MORE
        invariant Reach(blocks, k) == middle[0].size && Absorbed(blocks, k, middle) == Absorbed(old(blocks), k, middle)
        invariant forall a :: 0 <= a < memory.Length && !InHeader(a, mcb) ==> memory[a] == old(memory[a])
        decreases |blocks|
      {
        AtBlock(k);
        var next := U16(mcb + 1 + McbSize(mcb));
        AtBlock(k + 1);
        if McbOwner(next) != 0 {
          break;
        }
        MergeStepFits(k);
        MergeStep(blocks, k, middle);
        MergeShorter(blocks, k);
        MergeHeader(mcb, next, k);
        AtBlock(k);
      }
      assert FreeRun(blocks[k + 1..]) == 0;
      NothingToAbsorb(blocks, k);
      assert blocks[k] == middle[0];
    }

    // Resizes the block at seg, first absorbing the free blocks right after it. What is given up becomes a free
    // block; a request that cannot be met leaves the block at all it could reach.
    method MemResize(seg: u16, paras: u16, ghost k: nat) returns (ok: bool, maxParas: u16)
      requires Valid() && k < |blocks| && seg == firstMcb + Span(blocks[..k]) + 1
      modifies memory, this`blocks
      ensures Valid() && Reach(old(blocks), k) < 0x1_0000
      ensures blocks == ResizeAt(old(blocks), k, paras)
      ensures ok <==> paras <= Reach(old(blocks), k)
      ensures !ok ==> maxParas == Reach(old(blocks), k)
      ensures OwnedKept(old(blocks), blocks, old(memory[..]), memory[..], firstMcb, seg - 1)
      ensures forall a ::
                0 <= a < memory.Length && Elsewhere(a, seg - 1, paras < Reach(old(blocks), k) - 1, seg + paras) ==>
                memory[a] == old(memory[a])
      ensures forall a :: 0 <= a < memory.Length && seg * 16 <= a < (seg + Min(paras, old(blocks)[k].size)) * 16 ==>
                memory[a] == old(memory[a])
    {
      hide Encodes, Span, HeaderIs, Reach, FreeRun, Absorbed, BlockAt, OwnedKept, U16, ResizeAt;
      var mcb := U16(seg - 1);
      ReachFits(k);
      AtBlock(k);
      var cur, kind, owner := McbSize(mcb), McbType(mcb), McbOwner(mcb);
      ghost var r := FreeRun(blocks[k + 1..]);
      ghost var i, start: int := k + 1, mcb + 1;
      while kind != TYPE_LAST
        invariant k + 1 <= i <= k + 1 + r && i <= |blocks| && start + cur == firstMcb + Span(blocks[..i])
        invariant kind == if i == |blocks| then TYPE_LAST else TYPE_MORE
        invariant Valid() && blocks == old(blocks) && memory[..] == old(memory[..])
        decreases |blocks| - i
      {
        AtBlock(i);
        assert i - k - 1 < |blocks[k + 1..]| && blocks[k + 1..][i - k - 1] == blocks[i];
        var next := U16(mcb + 1 + cur);
        if McbOwner(next) != 0 {
          break;
        }
        var size := McbSize(next);
        cur := U16(cur + 1 + size);
        kind := McbType(next);
        i := i + 1;
      }
      ReachIs(blocks, k);
      ok, maxParas := paras <= cur, if paras > cur then cur else 0;
      Resettle(mcb, cur, kind, owner, paras, k);
    }

    // Rewrites block k's header for the cur paragraphs it can reach, splitting off what the request leaves.
    method Resettle(mcb: u16, cur: u16, kind: byte, owner: u16, paras: u16, ghost k: nat)
      requires Valid() && k < |blocks| && mcb == firstMcb + Span(blocks[..k])
      requires cur == Reach(blocks, k) && owner == blocks[k].owner
      requires kind == if k + 1 + FreeRun(blocks[k + 1..]) == |blocks| then TYPE_LAST else TYPE_MORE
      modifies memory, this`blocks
      ensures Valid() && Reach(old(blocks), k) < 0x1_0000 && blocks == ResizeAt(old(blocks), k, paras)
      ensures OwnedKept(old(blocks), blocks, old(memory[..]), memory[..], firstMcb, mcb)
      ensures forall a :: 0 <= a < memory.Length && Elsewhere(a, mcb, paras < cur - 1, mcb + 1 + paras) ==>
                memory[a] == old(memory[a])
    {
      hide Encodes, Span, HeaderIs, U16, Reach, FreeRun, Absorbed, BlockAt, OwnedKept, InHeader, Word;
      ReachFits(k);
      ghost var middle := if paras > cur then [Block(owner, cur)] else Carve(owner, cur, paras);
      ghost var rest := blocks[k + 1 + FreeRun(blocks[k + 1..])..];
      SpanOne(Block(owner, cur));
      if paras > cur {
        McbWrite(mcb, kind, owner, cur);
        EncodesOne(memory[..], middle, mcb, rest == []);
      } else {
        CarveSpan(owner, cur, paras);
        if paras < cur - 1 {
          var split := U16(mcb + 1 + paras);
          McbWrite(split, kind, 0, U16(cur - paras - 1));
          McbWrite(mcb, TYPE_MORE, owner, paras);
          EncodesTwo(memory[..], middle, mcb, rest == []);
        } else {
          McbWrite(mcb, kind, owner, cur);
          EncodesOne(memory[..], middle, mcb, rest == []);
        }
      }
      forall a | 0 <= a < memory.Length && !(mcb * 16 <= a < (mcb + 1 + cur) * 16)
        ensures old(memory[..])[a] == memory[..][a]
      {
        OutsideHeader(a, mcb, mcb, 1 + cur);
        if paras < cur - 1 {
          OutsideHeader(a, mcb + 1 + paras, mcb, 1 + cur);
        }
      }
      AbsorbedRewritten(old(memory[..]), memory[..], blocks, k, middle, firstMcb);
      blocks := ResizeAt(blocks, k, paras);
    }

    // Makes seg the start of a block of its own, owned by owner, out of the block whose memory contains it. Used to
    // reserve a block in the middle of the arena; nothing happens when no block contains seg.
    method McbClaim(seg: u16, owner: u16)
      requires firstMcb != 0 ==> Valid()
      modifies memory, this`blocks
      ensures firstMcb != 0 ==> Valid()
      ensures firstMcb == 0 || Containing(old(blocks), firstMcb, seg).None? ==>
                blocks == old(blocks) && memory[..] == old(memory[..])
      ensures firstMcb != 0 && Containing(old(blocks), firstMcb, seg).Some? ==>
                var k := Containing(old(blocks), firstMcb, seg).value;
                k < |old(blocks)| &&
                var start := firstMcb + Span(old(blocks)[..k]) + 1;
                && start <= seg < start + old(blocks)[k].size
                && blocks == ClaimAt(old(blocks), k, start, seg, owner)
                && forall a :: 0 <= a < memory.Length && !InHeader(a, start - 1) && !InHeader(a, seg - 1) ==>
                                 memory[a] == old(memory[a])
    {
      hide Encodes, Span, HeaderIs, U16, Containing, ClaimAt;
      if firstMcb == 0 {
        return;
      }
      var mcb := firstMcb;
      ghost var k: nat := 0;
      SpanOne(blocks[0]);
      assert blocks[..0] == [];
      ContainingStart(firstMcb, seg);
      while true
        invariant Valid() && k < |blocks| && mcb == firstMcb + Span(blocks[..k])
        invariant blocks == old(blocks) && memory[..] == old(memory[..])
        invariant Containing(blocks[..k], firstMcb, seg).None?
        decreases |blocks| - k
      {
        AtBlock(k);
        ContainingStep(blocks, firstMcb, seg, k);
        var kind, size, start := McbType(mcb), McbSize(mcb), U16(mcb + 1);
        if seg >= start && seg < start + size {
          Reserve(mcb, seg, owner, k);
          return;
        }
        if kind == TYPE_LAST {
          assert blocks[..k + 1] == blocks;
          return;
        }
        mcb := U16(mcb + 1 + size);
        k := k + 1;
      }
    }

    // Gives seg, which lies in block k's memory, a block of its own.
    method Reserve(mcb: u16, seg: u16, owner: u16, ghost k: nat)
      requires Valid() && k < |blocks| && mcb == firstMcb + Span(blocks[..k])
      requires mcb + 1 <= seg < mcb + 1 + blocks[k].size
      modifies memory, this`blocks
      ensures Valid() && mcb + 1 <= seg < mcb + 1 + old(blocks)[k].size && mcb < 0xFFFF
      ensures blocks == ClaimAt(old(blocks), k, mcb + 1, seg, owner)
      ensures forall a :: 0 <= a < memory.Length && !InHeader(a, mcb) && !InHeader(a, seg - 1) ==>
                            memory[a] == old(memory[a])
    {
      hide Encodes, Span, HeaderIs, U16, InHeader, Word;
      AtBlock(k);
      var kind, size, start := McbType(mcb), McbSize(mcb), U16(mcb + 1);
      ClaimSpan(blocks, k, start, seg, owner);
      ghost var ms, last := [blocks[k]], blocks[k + 1..] == [];
      assert blocks == blocks[..k] + ms + blocks[k + 1..];
      SpanOne(blocks[k]);
      ghost var ps: seq<Block>;
      if seg == start {
        McbWrite(mcb, kind, owner, size);
        ps := [Block(owner, size)];
        SpanOne(ps[0]);
        EncodesOne(memory[..], ps, mcb, last);
      } else {
        var size1, size2 := U16(seg - start - 1), U16(start + size - seg);
        HeaderAt(memory[..], blocks, firstMcb, k);
        McbWrite(U16(seg - 1), kind, owner, size2);
        HeaderOwner(mcb, kind, blocks[k]);
        McbWrite(mcb, TYPE_MORE, McbOwner(mcb), size1);
        ps := [Block(blocks[k].owner, size1), Block(owner, size2)];
        EncodesTwo(memory[..], ps, mcb, last);
      }
      forall a | 0 <= a < memory.Length && !(mcb * 16 <= a < (mcb + 1 + size) * 16)
        ensures old(memory[..])[a] == memory[..][a]
      {
        OutsideHeader(a, mcb, mcb, 1 + size);
        OutsideHeader(a, seg - 1, mcb, 1 + size);
      }
      Rewritten(old(memory[..]), memory[..], blocks[..k], ms, ps, blocks[k + 1..], firstMcb);
      blocks := ClaimAt(blocks, k, start, seg, owner);
      assert blocks == old(blocks)[..k] + ps + old(blocks)[k + 1..];
    }

    lemma HeaderOwner(mcb: u16, kind: byte, b: Block)
      requires memory.Length >= 0x10_0000 && HeaderIs(memory[..], mcb, kind, b)
      ensures McbOwner(mcb) == b.owner
    {
    }

    // Everything block k can reach lies below the top of the chain, so no size wraps.
    lemma ReachFits(k: nat)
      requires Valid() && k < |blocks|
      ensures firstMcb + Span(blocks[..k]) + 1 + Reach(blocks, k) <= top
    {
      AbsorbedStretch(blocks, k);
      var r := FreeRun(blocks[k + 1..]);
      SpanConcat(blocks[..k] + blocks[k..k + 1 + r], blocks[k + 1 + r..]);
      SpanConcat(blocks[..k], blocks[k..k + 1 + r]);
    }

    lemma MergeStepFits(k: nat)
      requires Valid() && k + 1 < |blocks|
      ensures blocks[k].size + 1 + blocks[k + 1].size < 0x1_0000
    {
      AtBlock(k);
      AtBlock(k + 1);
    }

    method MarkFree(mcb: u16, ghost k: nat)
      requires Valid() && k < |blocks| && mcb == firstMcb + Span(blocks[..k])
      modifies memory, this`blocks
      ensures Valid() && blocks == old(blocks)[k := Block(0, old(blocks)[k].size)]
      ensures forall a :: 0 <= a < memory.Length && !InHeader(a, mcb) ==> memory[a] == old(memory[a])
    {
      hide Encodes, Span, HeaderIs, U16;
      AtBlock(k);
      ghost var ms, ps := [blocks[k]], [Block(0, blocks[k].size)];
      assert blocks == blocks[..k] + ms + blocks[k + 1..];
      SpanOne(ms[0]);
      SpanOne(ps[0]);
      SwapKeepsBlocks(blocks[..k], ms, ps, blocks[k + 1..], 0, 0);
      McbWrite(mcb, McbType(mcb), 0, McbSize(mcb));
      EncodesOne(memory[..], ps, mcb, blocks[k + 1..] == []);
      Rewritten(old(memory[..]), memory[..], blocks[..k], ms, ps, blocks[k + 1..], firstMcb);
      blocks := blocks[k := Block(0, blocks[k].size)];
      assert blocks == old(blocks)[..k] + ps + old(blocks)[k + 1..];
    }
  }

  lemma FreedFirst(bs: seq<Block>, cs: seq<Block>, k: nat)
    requires FreesBlock(bs, cs, k)
    ensures k < |cs| && cs[..k] == bs[..k] && cs[k].owner == 0
  {
  }

  lemma FreeHasFit(bs: seq<Block>, k: nat)
    requires k < |bs| && bs[k].owner == 0
    ensures forall n: u16 :: n <= bs[k].size ==> FirstFit(bs, n).Some?
  {
    forall n: u16 | n <= bs[k].size ensures FirstFit(bs, n).Some? {
      FreeBlockFits(bs, k, n);
    }
  }

  lemma MarkedSame(bs: seq<Block>, k: nat, middle: seq<Block>)
    requires k < |bs|
    ensures var ts := bs[k := Block(0, bs[k].size)];
            && ts[..k] == bs[..k] && Reach(ts, k) == Reach(bs, k) && Absorbed(ts, k, middle) == Absorbed(bs, k, middle)
  {
    var ts := bs[k := Block(0, bs[k].size)];
    assert ts[k + 1..] == bs[k + 1..];
    var r := FreeRun(bs[k + 1..]);
    assert ts[k + 1..k + 1 + r] == bs[k + 1..k + 1 + r] && ts[k + 1 + r..] == bs[k + 1 + r..];
  }

  lemma MergeShorter(bs: seq<Block>, k: nat)
    requires k + 1 < |bs| && bs[k].size + 1 + bs[k + 1].size < 0x1_0000
    ensures |MergeNext(bs, k)| == |bs| - 1 && MergeNext(bs, k)[k].owner == bs[k].owner
  {
  }

  lemma {:induction false} EncodesOne(m: seq<byte>, bs: seq<Block>, at: int, last: bool)
    requires |bs| == 1 && HeaderIs(m, at, if last then TYPE_LAST else TYPE_MORE, bs[0])
    ensures Encodes(m, bs, at, last)
  {
    assert bs[1..] == [];
  }

  lemma {:induction false} EncodesTwo(m: seq<byte>, bs: seq<Block>, at: int, last: bool)
    requires |bs| == 2 && HeaderIs(m, at, TYPE_MORE, bs[0])
    requires HeaderIs(m, at + 1 + bs[0].size, if last then TYPE_LAST else TYPE_MORE, bs[1])
    ensures Encodes(m, bs, at, last)
    ensures Span(bs) == 2 + bs[0].size + bs[1].size
  {
    assert bs[1..][1..] == [];
    EncodesOne(m, bs[1..], at + 1 + bs[0].size, last);
    assert Span(bs[1..]) == 1 + bs[1].size;
  }

  lemma {:induction false} EncodesThree(m: seq<byte>, bs: seq<Block>, at: int)
    requires |bs| == 3 && HeaderIs(m, at, TYPE_MORE, bs[0])
    requires HeaderIs(m, at + 1 + bs[0].size, TYPE_MORE, bs[1])
    requires HeaderIs(m, at + 2 + bs[0].size + bs[1].size, TYPE_LAST, bs[2])
    ensures Encodes(m, bs, at, true)
    ensures Span(bs) == 3 + bs[0].size + bs[1].size + bs[2].size
  {
    EncodesTwo(m, bs[1..], at + 1 + bs[0].size, true);
  }

  lemma {:induction false} ScanStart(n: u16)
    ensures LargestFree([]) == 0 && FirstFit([], n).None?
  {
  }

  // One step of the allocation walk.
  lemma {:induction false} ScanStep(bs: seq<Block>, k: nat, n: u16)
    requires k < |bs| && FirstFit(bs[..k], n).None?
    ensures LargestFree(bs[..k + 1]) == Max(LargestFree(bs[..k]), if bs[k].owner == 0 then bs[k].size else 0)
    ensures if bs[k].owner == 0 && bs[k].size >= n then FirstFit(bs, n) == Some(k) else FirstFit(bs[..k + 1], n).None?
  {
    if k == 0 {
      assert bs[..1][1..] == [];
    } else {
      assert bs[..k][1..] == bs[1..][..k - 1] && bs[..k + 1][1..] == bs[1..][..k];
      ScanStep(bs[1..], k - 1, n);
    }
  }

  lemma {:induction false} AbsorbedRewritten(m: seq<byte>, n: seq<byte>, bs: seq<Block>, k: nat, middle: seq<Block>,
                                             at: int)
    requires k < |bs| && Encodes(m, bs, at, true) && |m| == |n|
    requires middle != [] && Span(middle) == 1 + Reach(bs, k)
    requires var mid := at + Span(bs[..k]);
             && Encodes(n, middle, mid, bs[k + 1 + FreeRun(bs[k + 1..])..] == [])
             && forall a :: 0 <= a < |m| && !(mid * 16 <= a < (mid + 1 + Reach(bs, k)) * 16) ==> m[a] == n[a]
    ensures Encodes(n, Absorbed(bs, k, middle), at, true) && Span(Absorbed(bs, k, middle)) == Span(bs)
    ensures OwnedKept(bs, Absorbed(bs, k, middle), m, n, at, at + Span(bs[..k]))
  {
    hide Encodes, Span, HeaderIs, Reach, FreeRun, BlockAt, OwnedKept;
    var r := FreeRun(bs[k + 1..]);
    AbsorbedStretch(bs, k);
    Rewritten(m, n, bs[..k], bs[k..k + 1 + r], middle, bs[k + 1 + r..], at);
    AbsorbOwnedKept(bs, at, k, middle, m, n);
    AbsorbedKeepsSpan(bs, k, middle);
  }

  lemma ReachIs(bs: seq<Block>, k: nat)
    requires k < |bs|
    ensures k + 1 + FreeRun(bs[k + 1..]) <= |bs|
    ensures Span(bs[..k + 1 + FreeRun(bs[k + 1..])]) == Span(bs[..k]) + 1 + Reach(bs, k)
  {
    hide Span;
    var r := FreeRun(bs[k + 1..]);
    AbsorbedStretch(bs, k);
    assert bs[..k + 1 + r] == bs[..k] + bs[k..k + 1 + r];
    SpanConcat(bs[..k], bs[k..k + 1 + r]);
  }

  lemma {:induction false} ContainingStart(at: int, seg: int)
    ensures Containing([], at, seg).None?
  {
  }
}
